/** From the bytes of one file, through packets, a lossy and duplicating channel, the store
    and partial writes, back to the bytes of the file. */
module EndToEnd {
  import opened Wrappers
  import opened Bytes
  import opened ParamDeriv
  import opened ProbeTable
  import opened SymbolStore
  import opened Segments
  import opened Sender
  import opened FileHistory

  ghost predicate GoodFile(file: seq<Byte>) {
    1 <= |file| <= MAX_FILE_SIZE
  }

  ghost function FileParams(file: seq<Byte>): (p: CodingParams)
    requires GoodFile(file)
    ensures p == ParamsOf(|file|)
    ensures p.Valid(|file|) && p.T == PD_T && p.nCb == p.nLarge == 1
    ensures 1 <= p.KLarge == p.nSrcSymTot <= PD_MAX_K
  {
    AcceptedParams(|file|);
    ParamsOf(|file|)
  }

  ghost function Source(file: seq<Byte>): seq<Symbol>
    requires GoodFile(file)
  {
    SourceSymbols(file, FileParams(file), 0)
  }

  /** All packets the sender sends for a file. */
  ghost function PacketsOf(file: seq<Byte>, fileNbr: nat, nExtra: int, enc: Encoder): seq<Packet>
    requires GoodFile(file) && nExtra <= MAX_REPAIR
  {
    FilePackets(file, FileParams(file), |file|, 1, fileNbr, nExtra, enc)
  }

  /** The sender derives these parameters, reads the whole file, and so sends these packets. */
  lemma SenderSends(file: seq<Byte>, fileNbr: nat, nExtra: int, enc: Encoder)
    requires GoodFile(file) && nExtra <= MAX_REPAIR
    ensures DeriveParams(Int32(|file|)) == Some(FileParams(file))
    ensures FilePackets(Readable(file, FileParams(file)), FileParams(file), Int32(|file|), 1, fileNbr, nExtra, enc)
         == PacketsOf(file, fileNbr, nExtra, enc)
  {
    AcceptedParams(|file|);
    SmallerThanFile(|file|);
    ReadWholeExactlyWithinLimit(file);
  }

  // ----- what the packets of one file say

  /** The only block is the whole file. */
  lemma OnlyBlock(file: seq<Byte>)
    requires GoodFile(file)
    ensures BlockRead(file, FileParams(file), 0) == file
    ensures |file| <= Span(FileParams(file).KLarge, PD_T)
    ensures |Source(file)| == FileParams(file).KLarge
    ensures Source(file) == Cut(Pad(file, Span(FileParams(file).KLarge, PD_T)), FileParams(file).KLarge, PD_T)
  {
    var p := FileParams(file);
    assert p.SymsBefore(0) == 0 && Span(0, p.T) == 0;
  }

  lemma SourceJoins(file: seq<Byte>)
    requires GoodFile(file)
    ensures Uniform(Source(file), PD_T)
    ensures |Join(Source(file))| == Span(FileParams(file).KLarge, PD_T)
    ensures file <= Join(Source(file))
  {
    OnlyBlock(file);
    var k := FileParams(file).KLarge;
    var padded := Pad(file, Span(k, PD_T));
    CutUniform(padded, k, PD_T);
    JoinCut(padded, k, PD_T);
  }

  lemma PacketsSplit(file: seq<Byte>, fileNbr: nat, nExtra: int, enc: Encoder)
    requires GoodFile(file) && nExtra <= MAX_REPAIR
    ensures var p := FileParams(file);
            PacketsOf(file, fileNbr, nExtra, enc)
              == SourcePackets(file, p, fileNbr, p.KLarge, |file|)
               + RepairPackets(Source(file), fileNbr, Max0(nExtra), |file|, enc)
  {
    var p := FileParams(file);
    OnlyBlock(file);
    assert FilePackets(file, p, |file|, 0, fileNbr, nExtra, enc) == [];
    assert FilePackets(file, p, |file|, 1, fileNbr, nExtra, enc) == [] + BlockPackets(file, p, |file|, 0, fileNbr, nExtra, enc);
  }

  /** Packet i of a file is addressed to that file, fits, and is what the receiver takes for
      symbol i; with its missing tail padded by zeros it is encoded symbol i. */
  lemma PacketIsSymbol(file: seq<Byte>, fileNbr: nat, nExtra: int, enc: Encoder, i: nat)
    requires GoodFile(file) && nExtra <= MAX_REPAIR && Systematic(enc, PD_T)
    requires i < |PacketsOf(file, fileNbr, nExtra, enc)|
    ensures |PacketsOf(file, fileNbr, nExtra, enc)| == FileParams(file).KLarge + Max0(nExtra)
    ensures var pkt := PacketsOf(file, fileNbr, nExtra, enc)[i];
            && SymbolId(FileParams(file), pkt.header) == i
            && pkt.header.ensId == (if i < FileParams(file).KLarge then 0 else 1)
            && pkt.header.payloadId == 1024 * (if i < FileParams(file).KLarge then i else i - FileParams(file).KLarge)
            && pkt.header.toi == fileNbr % 0x1_0000 && pkt.header.tos == |file|
            && |pkt.payload| <= PD_T
            && Pad(pkt.payload, PD_T) == enc(Source(file), i)
  {
    hide PacketsOf, Systematic, CodingParams.Valid, Source, SymbolId;
    var p := FileParams(file);
    PacketsSplit(file, fileNbr, nExtra, enc);
    var pkt := PacketsOf(file, fileNbr, nExtra, enc)[i];
    if i < p.KLarge {
      SourcePacketIsSymbol(file, fileNbr, enc, i);
      assert pkt == SourcePacket(file, p, fileNbr, i, |file|);
    } else {
      RepairPacketIsSymbol(file, fileNbr, enc, i - p.KLarge);
      assert pkt == RepairPacket(Source(file), fileNbr, i - p.KLarge, |file|, enc);
    }
  }

  lemma SourcePacketIsSymbol(file: seq<Byte>, fileNbr: nat, enc: Encoder, i: nat)
    requires GoodFile(file) && i < FileParams(file).KLarge && Systematic(enc, PD_T)
    ensures var pkt := SourcePacket(file, FileParams(file), fileNbr, i, |file|);
            && SymbolId(FileParams(file), pkt.header) == i
            && |pkt.payload| <= PD_T
            && Pad(pkt.payload, PD_T) == enc(Source(file), i)
  {
    OnlyBlock(file);
    SourceJoins(file);
    SourcePayload(file, fileNbr, i);
  }

  lemma RepairPacketIsSymbol(file: seq<Byte>, fileNbr: nat, enc: Encoder, j: nat)
    requires GoodFile(file) && j < MAX_REPAIR && Systematic(enc, PD_T)
    ensures var pkt := RepairPacket(Source(file), fileNbr, j, |file|, enc);
            && SymbolId(FileParams(file), pkt.header) == FileParams(file).KLarge + j
            && |pkt.payload| <= PD_T
            && Pad(pkt.payload, PD_T) == enc(Source(file), FileParams(file).KLarge + j)
  {
    OnlyBlock(file);
    SourceJoins(file);
  }

  lemma SourcePayload(file: seq<Byte>, fileNbr: nat, i: nat)
    requires GoodFile(file) && i < FileParams(file).KLarge
    ensures var pkt := SourcePacket(file, FileParams(file), fileNbr, i, |file|);
            && |pkt.payload| <= PD_T
            && Pad(pkt.payload, PD_T) == Source(file)[i]
  {
    var p := FileParams(file);
    OnlyBlock(file);
    var n := Span(p.KLarge, PD_T);
    var padded := Pad(file, n);
    CutSymbol(padded, p.KLarge, PD_T, i);
    SpanMono(i, p.KLarge - 1, PD_T);
    PaddedRun(file, n, Span(i, PD_T), PD_T);
  }

  /** A run of the padded file is the same run of the file, padded. */
  lemma PaddedRun(file: seq<Byte>, n: nat, a: nat, t: nat)
    requires a <= |file| <= n && a + t <= n
    ensures Pad(file, n)[a..a + t] == Pad(file[a..Min(a + t, |file|)], t)
  {
    var s, u := Pad(file, n)[a..a + t], Pad(file[a..Min(a + t, |file|)], t);
    forall i | 0 <= i < t
      ensures s[i] == u[i]
    {
      assert s[i] == Pad(file, n)[a + i];
      if a + i < |file| {
        assert u[i] == file[a..Min(a + t, |file|)][i];
      }
    }
  }

  /** Nothing is lost or sent twice: the payloads of the source packets are the file. */
  lemma SourcePayloadsAreFile(file: seq<Byte>, fileNbr: nat, n: nat)
    requires GoodFile(file) && n <= FileParams(file).KLarge
    ensures var p := FileParams(file);
            Join(Payloads(SourcePackets(file, p, fileNbr, p.KLarge, |file|)[..n])) == file[..Min(Span(n, PD_T), |file|)]
  {
    SourcePayloadsAreBlock(file, FileParams(file), fileNbr, FileParams(file).KLarge, |file|, n);
  }

  // ----- one file through the channel

  /** The channel loses, repeats and reorders packets but does not make any up. */
  ghost predicate Through(received: seq<Packet>, sent: seq<Packet>) {
    forall i :: 0 <= i < |received| ==> received[i] in sent
  }

  lemma ReceivedHonest(file: seq<Byte>, fileNbr: nat, nExtra: int, enc: Encoder, received: seq<Packet>)
    requires GoodFile(file) && nExtra <= MAX_REPAIR && Systematic(enc, PD_T)
    requires Through(received, PacketsOf(file, fileNbr, nExtra, enc))
    ensures Honest(Arrivals(FileParams(file), received), PD_T, enc, Source(file))
    ensures forall i :: 0 <= i < |received| ==>
              received[i].header.toi == fileNbr % 0x1_0000 && received[i].header.tos == |file|
              && |received[i].payload| <= PD_T
  {
    var sent := PacketsOf(file, fileNbr, nExtra, enc);
    forall i | 0 <= i < |received|
      ensures received[i].header.toi == fileNbr % 0x1_0000 && received[i].header.tos == |file|
      ensures |received[i].payload| <= PD_T
      ensures Pad(received[i].payload, PD_T) == enc(Source(file), SymbolId(FileParams(file), received[i].header))
    {
      var j :| 0 <= j < |sent| && sent[j] == received[i];
      PacketIsSymbol(file, fileNbr, nExtra, enc, j);
    }
  }

  /** The store a set of received packets leaves behind. */
  ghost function Stored(file: seq<Byte>, received: seq<Packet>): Store
    requires GoodFile(file) && Short(received)
  {
    Collect(FileParams(file).KLarge, PD_T, Arrivals(FileParams(file), received))
  }

  ghost predicate Short(pkts: seq<Packet>) {
    forall i :: 0 <= i < |pkts| ==> |pkts[i].payload| <= PD_T
  }

  ghost function PacketIds(file: seq<Byte>, pkts: seq<Packet>): seq<nat>
    requires GoodFile(file)
  {
    ArrivalIds(Arrivals(FileParams(file), pkts))
  }

  /** All source symbols of the file are among the packets, before more than 30 distinct
      repair symbols. */
  ghost predicate Complete(file: seq<Byte>, pkts: seq<Packet>)
    requires GoodFile(file)
  {
    CompleteIds(PacketIds(file, pkts), FileParams(file).KLarge)
  }

  /** At least as many distinct symbols as the file has are among the packets. */
  ghost predicate Plenty(file: seq<Byte>, pkts: seq<Packet>)
    requires GoodFile(file)
  {
    |Firsts(PacketIds(file, pkts))| >= FileParams(file).KLarge
  }

  /** The packets give the file back: they are complete, or there are plenty and the codec
      succeeds on those that are kept. */
  ghost predicate Enough(file: seq<Byte>, pkts: seq<Packet>, dec: Decoder)
    requires GoodFile(file)
  {
    || Complete(file, pkts)
    || (Plenty(file, pkts) && Short(pkts) && dec(FileParams(file).KLarge, PD_T, Stored(file, pkts).entries).Decoded?)
  }

  lemma CompleteInStore(file: seq<Byte>, pkts: seq<Packet>)
    requires GoodFile(file) && Short(pkts)
    ensures Complete(file, pkts) <==> AllSourceIn(Stored(file, pkts))
  {
    hide CompleteIds, AllSourceIn, CodingParams.Valid, Collect;
    AllSourceKept(FileParams(file).KLarge, PD_T, Arrivals(FileParams(file), pkts));
  }

  /** What is enough, said of the store. */
  lemma EnoughInStore(file: seq<Byte>, pkts: seq<Packet>, dec: Decoder)
    requires GoodFile(file) && Short(pkts)
    ensures Enough(file, pkts, dec) <==> AllSourceIn(Stored(file, pkts)) || Decodes(Stored(file, pkts), dec)
  {
    CompleteInStore(file, pkts);
    hide CodingParams.Valid, Collect, Complete, AllSourceIn;
    EnoughKept(FileParams(file).KLarge, PD_T, Arrivals(FileParams(file), pkts));
  }

  /** The store reports success exactly when what came was enough, and then its data cut to
      the file length is the file. */
  lemma {:induction false} StoredGivesFile(file: seq<Byte>, fileNbr: nat, nExtra: int, enc: Encoder, dec: Decoder, received: seq<Packet>)
    requires GoodFile(file) && nExtra <= MAX_REPAIR && Systematic(enc, PD_T) && Sound(dec, enc)
    requires Through(received, PacketsOf(file, fileNbr, nExtra, enc))
    ensures Short(received)
    ensures var st := Stored(file, received);
            && st.Valid()
            && (st.GetData(dec).1 <==> Enough(file, received, dec))
            && (Enough(file, received, dec) ==> Content([st], |file|, [dec]) == file)
  {
    ReceivedHonest(file, fileNbr, nExtra, enc, received);
    EnoughInStore(file, received, dec);
    hide Enough;
    var p := FileParams(file);
    var arrivals := Arrivals(p, received);
    var st := Stored(file, received);
    CollectValid(p.KLarge, PD_T, arrivals);
    CollectConsistent(p.KLarge, PD_T, arrivals, enc, Source(file));
    SourceJoins(file);
    OnlyBlock(file);
    SuccessIsComplete(st, dec, enc, Source(file));
    OneBlockContent(st, |file|, dec);
  }

  lemma OneBlockContent(st: Store, n: nat, dec: Decoder)
    requires n <= |st.GetData(dec).0| || !st.GetData(dec).1
    ensures n <= |st.GetData(dec).0| ==> Content([st], n, [dec]) == st.GetData(dec).0[..n]
  {
    var blocks := Blocks([st], [dec]);
    assert blocks == [st.GetData(dec).0];
    assert blocks[..0] == [];
    assert Join(blocks) == Join(blocks[..0]) + blocks[0];
  }

  /** A segment that takes in packets one after the other. */
  ghost function Receive(seg: Segment, pkts: seq<Packet>): Segment {
    if |pkts| == 0 then seg
    else
      var s := Receive(seg, pkts[..|pkts| - 1]);
      if s.Accepts(pkts[|pkts| - 1]) then s.AddPacket(pkts[|pkts| - 1]) else s
  }

  lemma {:induction false} ReceiveStores(file: seq<Byte>, f: UInt16, received: seq<Packet>)
    requires GoodFile(file)
    requires forall i :: 0 <= i < |received| ==>
               received[i].header.toi == f && received[i].header.tos == |file| && |received[i].payload| <= PD_T
    ensures var seg0 := NewSegment(f, |file|, FileParams(file));
            var seg := Receive(seg0, received);
            seg.Valid() && seg == seg0.(stores := [Stored(file, received)])
  {
    var p := FileParams(file);
    var seg0 := NewSegment(f, |file|, p);
    if |received| == 0 {
      NewSegmentValid(f, |file|, p);
      assert Arrivals(p, received) == [];
    } else {
      var front, last := received[..|received| - 1], received[|received| - 1];
      ReceiveStores(file, f, front);
      var seg := Receive(seg0, front);
      assert seg.Accepts(last);
      AddPacketValid(seg, last);
      assert Arrivals(p, received)[..|received| - 1] == Arrivals(p, front);
    }
  }

  /** Single-segment round trip: if enough packets arrive, then whatever else arrives, in any
      order and however often, draining the segment with any write sizes yields exactly the
      file. */
  lemma {:induction false} SingleSegmentRoundTrip(file: seq<Byte>, f: UInt16, nExtra: int, enc: Encoder, dec: Decoder,
                                                  received: seq<Packet>, fd: int, takes: seq<nat>)
    requires GoodFile(file) && nExtra <= MAX_REPAIR && Systematic(enc, PD_T) && Sound(dec, enc)
    requires Through(received, PacketsOf(file, f, nExtra, enc))
    requires Enough(file, received, dec)
    requires fd != -1
    ensures var seg := Receive(NewSegment(f, |file|, FileParams(file)), received).PrepareOutput(fd, dec);
            && OnCourse(Drain(seg, [], false), seg, [dec])
            && var d := RunDrain(seg, [dec], takes);
               && d.emitted <= file
               && (d.done <==> d.emitted == file)
               && ((forall i :: 0 <= i < |takes| ==> takes[i] > 0) && |takes| >= |file| ==> d.done)
  {
    hide Enough;
    var seg0 := Receive(NewSegment(f, |file|, FileParams(file)), received);
    ReceivedGivesFile(file, f, nExtra, enc, dec, received);
    DrainStarts(seg0, fd, [dec]);
    DrainEmitsContent(seg0.PrepareOutput(fd, dec), [dec], takes);
  }

  lemma ReceivedGivesFile(file: seq<Byte>, f: UInt16, nExtra: int, enc: Encoder, dec: Decoder, received: seq<Packet>)
    requires GoodFile(file) && nExtra <= MAX_REPAIR && Systematic(enc, PD_T) && Sound(dec, enc)
    requires Through(received, PacketsOf(file, f, nExtra, enc))
    requires Enough(file, received, dec)
    ensures var seg := Receive(NewSegment(f, |file|, FileParams(file)), received);
            && seg.Valid() && seg.fileLen == |file| && seg.P.nCb == 1 && |seg.stores| == 1
            && Content(seg.stores, |file|, [dec]) == file
  {
    hide CodingParams.Valid, Through, PacketsOf, Systematic, Sound, Enough;
    ReceivedHonest(file, f, nExtra, enc, received);
    ReceiveStores(file, f, received);
    StoredGivesFile(file, f, nExtra, enc, dec, received);
  }
}
