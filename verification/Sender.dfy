/** The sender: a file cut into code blocks, symbols and packets. */
module Sender {
  import opened Bytes
  import opened ParamDeriv
  import opened SymbolStore
  import opened Segments

  /** Payload bytes a packet buffer has room for beside the header. */
  const PAYLOAD_MAX := 2048 - 12

  /** Headers hold 32-bit byte offsets, so repair offsets must fit them. */
  const MAX_REPAIR := 0x8000_0000 / PD_T

  // ----- what is sent

  /** Where code block cb starts in the file, and how many of its bytes the file has. */
  function BlockStart(p: CodingParams, cb: nat): nat {
    Span(Max0(p.SymsBefore(cb)), p.T)
  }

  function BlockRead(file: seq<Byte>, p: CodingParams, cb: nat): (b: seq<Byte>)
    ensures |b| <= Span(Max0(p.BlockK(cb)), p.T)
  {
    var a := Min(BlockStart(p, cb), |file|);
    var size := Min(|file| - a, Span(Max0(p.BlockK(cb)), p.T));
    file[a..a + size]
  }

  /** The source symbols of code block cb, the last one padded with zeros. */
  function SourceSymbols(file: seq<Byte>, p: CodingParams, cb: nat): (src: seq<Symbol>)
    ensures |src| == Max0(p.BlockK(cb))
  {
    var k := Max0(p.BlockK(cb));
    Cut(Pad(BlockRead(file, p, cb), Span(k, p.T)), k, p.T)
  }

  function HeaderFor(ensId: UInt16, fileNbr: nat, j: nat, fileSize: UInt32): Header
    requires j * PD_T < 0x1_0000_0000
  {
    Header(ensId, fileNbr % 0x1_0000, j * PD_T, fileSize)
  }

  /** Source packet j of a block carries symbol j without the padding. */
  function SourcePacket(block: seq<Byte>, p: CodingParams, fileNbr: nat, j: nat, fileSize: UInt32): Packet
    requires j * PD_T < 0x1_0000_0000
  {
    var a := Min(Span(j, p.T), |block|);
    Packet(HeaderFor(ROUTE_ENS_ID_SOURCE, fileNbr, j, fileSize), block[a..Min(a + p.T, |block|)])
  }

  function RepairPacket(src: seq<Symbol>, fileNbr: nat, j: nat, fileSize: UInt32, enc: Encoder): Packet
    requires j * PD_T < 0x1_0000_0000
  {
    Packet(HeaderFor(ROUTE_ENS_ID_REPAIR, fileNbr, j, fileSize), enc(src, |src| + j))
  }

  function SourcePackets(block: seq<Byte>, p: CodingParams, fileNbr: nat, k: nat, fileSize: UInt32): (s: seq<Packet>)
    requires k <= PD_MAX_K
    ensures |s| == k
  {
    seq(k, j requires 0 <= j < k => SourcePacket(block, p, fileNbr, j, fileSize))
  }

  function RepairPackets(src: seq<Symbol>, fileNbr: nat, n: nat, fileSize: UInt32, enc: Encoder): (s: seq<Packet>)
    requires n <= MAX_REPAIR
    ensures |s| == n
  {
    seq(n, j requires 0 <= j < n => RepairPacket(src, fileNbr, j, fileSize, enc))
  }

  function BlockSource(file: seq<Byte>, p: CodingParams, fileSize: UInt32, cb: nat, fileNbr: nat): seq<Packet>
    requires Max0(p.BlockK(cb)) <= PD_MAX_K
  {
    SourcePackets(BlockRead(file, p, cb), p, fileNbr, Max0(p.BlockK(cb)), fileSize)
  }

  /** Everything sent for one code block: its source packets, then its repair packets. */
  function BlockPackets(file: seq<Byte>, p: CodingParams, fileSize: UInt32, cb: nat, fileNbr: nat, nExtra: int,
                        enc: Encoder): seq<Packet>
    requires Max0(p.BlockK(cb)) <= PD_MAX_K && nExtra <= MAX_REPAIR
  {
    BlockSource(file, p, fileSize, cb, fileNbr)
    + RepairPackets(SourceSymbols(file, p, cb), fileNbr, Max0(nExtra), fileSize, enc)
  }

  /** Everything sent for the first n code blocks. */
  function FilePackets(file: seq<Byte>, p: CodingParams, fileSize: UInt32, n: nat, fileNbr: nat, nExtra: int,
                       enc: Encoder): seq<Packet>
    requires p.KLarge <= PD_MAX_K && nExtra <= MAX_REPAIR
  {
    if n == 0 then []
    else FilePackets(file, p, fileSize, n - 1, fileNbr, nExtra, enc) + BlockPackets(file, p, fileSize, n - 1, fileNbr, nExtra, enc)
  }

  // ----- the transmitting loops

  datatype Outcome = Sent | Refused | Aborted | CodecFailed

  /** What fread can give of a file when the parameters are p. */
  function Readable(file: seq<Byte>, p: CodingParams): seq<Byte> {
    file[..Min(|file|, Span(p.nSrcSymTot, p.T))]
  }

  /** xmit_file. setupOk says whether the codec's memory sizes could be found; failAt is the
      code block at which a codec call fails, if any. The size is kept in an int. */
  method XmitFile(file: seq<Byte>, fileNbr: nat, nExtra: int, enc: Encoder, setupOk: bool, failAt: nat)
    returns (outcome: Outcome, sent: seq<Packet>)
    requires nExtra <= MAX_REPAIR
    requires Systematic(enc, PD_T)
    ensures outcome == (if Int32(|file|) <= 0 then Refused
                        else if Int32(|file|) > MAX_FILE_SIZE then Aborted
                        else if nExtra > 0 && (!setupOk || failAt == 0) then CodecFailed
                        else Sent)
    ensures outcome.Sent? || (outcome.CodecFailed? && setupOk) ==>
              && DeriveParams(Int32(|file|)).Some?
              && var p := DeriveParams(Int32(|file|)).value;
                 && p.KLarge <= PD_MAX_K
                 && sent == if outcome.Sent?
                            then FilePackets(Readable(file, p), p, Int32(|file|), 1, fileNbr, nExtra, enc)
                            else BlockSource(Readable(file, p), p, Int32(|file|), 0, fileNbr)
    ensures outcome.Refused? || outcome.Aborted? || (outcome.CodecFailed? && !setupOk) ==> sent == []
  {
    sent := [];
    var fileSize := Int32(|file|);
    if fileSize <= 0 {
      return Refused, sent;
    }
    Int32Value(fileSize);
    AcceptedSizes(fileSize);
    var derived := DeriveParams(fileSize);
    if derived.None? {
      return Aborted, sent;
    }
    AcceptedParams(fileSize);
    var p := derived.value;
    if nExtra > 0 && !setupOk {
      return CodecFailed, sent;
    }
    ReadableFits(file, p);
    var ok;
    ok, sent := XmitBlocks(Readable(file, p), p, fileSize, fileNbr, nExtra, enc, failAt);
    assert FilePackets(Readable(file, p), p, fileSize, 0, fileNbr, nExtra, enc) == [];
    outcome := if ok then Sent else CodecFailed;
  }

  lemma ReadableFits(file: seq<Byte>, p: CodingParams)
    requires 1 <= Int32(|file|) && p.Valid(Int32(|file|))
    ensures p.Valid(|Readable(file, p)|)
  {
    SmallerThanFile(|file|);
  }

  lemma SmallerThanFile(n: nat)
    ensures Int32(n) <= n
    ensures n < 0x8000_0000 ==> Int32(n) == n
  {
  }

  /** A file is read to its end exactly when its size is within the limit; a file of 4 GiB
      or more can pass with the rest of its size, and then only a part of it is sent. */
  lemma ReadWholeExactlyWithinLimit(file: seq<Byte>)
    requires DeriveParams(Int32(|file|)).Some?
    ensures Readable(file, DeriveParams(Int32(|file|)).value) == file <==> |file| <= MAX_FILE_SIZE
  {
    SmallerThanFile(|file|);
    var n := Int32(|file|);
    CeilDivRange(n);
    OneBlock(CeilDiv(n, PD_T));
    SmallerThanFile(n);
    AcceptedParams(n);
    var p := DeriveParams(n).value;
    SpanMono(p.nSrcSymTot, PD_MAX_K, PD_T);
    SpanIsProduct(PD_MAX_K, PD_T);
  }

  lemma OneByteParams()
    ensures Int32(0x1_0000_0001) == 1
    ensures DeriveParams(1).Some? && DeriveParams(1).value.nSrcSymTot == 1 && DeriveParams(1).value.T == PD_T
  {
    hide DeriveParams;
    Int32Value(0x1_0000_0001);
    Int32Value(1);
    AcceptedParams(1);
    OneSymbol(DeriveParams(1).value);
  }

  lemma OneSymbol(p: CodingParams)
    requires p.Valid(1)
    ensures p.nSrcSymTot == 1
  {
    SpanIsProduct(p.nSrcSymTot, p.T);
    CeilUnique(1, p.T, p.nSrcSymTot, 1) by {
      assert (p.nSrcSymTot - 1) * p.T == p.nSrcSymTot * p.T - p.T;
    }
  }

  /** A file of 4 GiB and one byte passes, and only its first 1024 bytes are read. */
  lemma HugeFileIsCut(file: seq<Byte>)
    requires |file| == 0x1_0000_0001
    ensures DeriveParams(Int32(|file|)).Some?
    ensures Readable(file, DeriveParams(Int32(|file|)).value) == file[..PD_T] != file
  {
    hide DeriveParams, Int32;
    OneByteParams();
    SpanIsProduct(1, PD_T);
  }

  /** The loop over code blocks. */
  method XmitBlocks(file: seq<Byte>, p: CodingParams, fileSize: UInt32, fileNbr: nat, nExtra: int, enc: Encoder, failAt: nat)
    returns (ok: bool, sent: seq<Packet>)
    requires p.Valid(|file|) && p.T == PD_T && p.KLarge <= PD_MAX_K
    requires nExtra <= MAX_REPAIR && Systematic(enc, PD_T)
    ensures ok <==> nExtra <= 0 || p.nCb <= failAt
    ensures sent == if ok then FilePackets(file, p, fileSize, p.nCb, fileNbr, nExtra, enc)
                    else FilePackets(file, p, fileSize, failAt, fileNbr, nExtra, enc) + BlockSource(file, p, fileSize, failAt, fileNbr)
  {
    sent := [];
    var srcBlock := new Byte[Span(if p.KLarge > nExtra then p.KLarge else nExtra, p.T)];
    var pos := 0;
    var cb := 0;
    assert BlockStart(p, 0) == 0;
    assert FilePackets(file, p, fileSize, 0, fileNbr, nExtra, enc) == [];
    hide BlockPackets, BlockSource, BlockRead, BlockStart, CodingParams.Valid, FilePackets, Systematic, Span;
    while cb < p.nCb
      invariant 0 <= cb <= p.nCb
      invariant pos == Min(BlockStart(p, cb), |file|)
      invariant sent == FilePackets(file, p, fileSize, cb, fileNbr, nExtra, enc)
      invariant nExtra > 0 ==> cb <= failAt
    {
      BlockSizes(file, p, cb);
      var szRead, packets;
      ok, szRead, packets := XmitBlock(file, p, fileSize, cb, pos, srcBlock, fileNbr, nExtra, enc, cb != failAt);
      sent := sent + packets;
      if !ok {
        return;
      }
      FilePacketsGrow(file, p, fileSize, cb, fileNbr, nExtra, enc);
      pos := pos + szRead;
      cb := cb + 1;
    }
    ok := true;
  }

  lemma FilePacketsGrow(file: seq<Byte>, p: CodingParams, fileSize: UInt32, cb: nat, fileNbr: nat, nExtra: int, enc: Encoder)
    requires p.KLarge <= PD_MAX_K && nExtra <= MAX_REPAIR
    ensures FilePackets(file, p, fileSize, cb + 1, fileNbr, nExtra, enc)
         == FilePackets(file, p, fileSize, cb, fileNbr, nExtra, enc) + BlockPackets(file, p, fileSize, cb, fileNbr, nExtra, enc)
  {
  }

  /** One code block; the buffer holds first the source block, then the repair symbols
      computed from it. */
  method XmitBlock(file: seq<Byte>, p: CodingParams, fileSize: UInt32, cb: nat, pos: nat, srcBlock: array<Byte>,
                   fileNbr: nat, nExtra: int, enc: Encoder, codecOk: bool)
    returns (ok: bool, szRead: nat, sent: seq<Packet>)
    requires p.Valid(|file|) && p.T == PD_T && p.KLarge <= PD_MAX_K && cb < p.nCb
    requires nExtra <= MAX_REPAIR && Systematic(enc, PD_T)
    requires srcBlock.Length == Span(if p.KLarge > nExtra then p.KLarge else nExtra, p.T)
    requires pos == Min(BlockStart(p, cb), |file|)
    modifies srcBlock
    ensures szRead == |BlockRead(file, p, cb)|
    ensures ok <==> nExtra <= 0 || codecOk
    ensures sent == if ok then BlockPackets(file, p, fileSize, cb, fileNbr, nExtra, enc) else BlockSource(file, p, fileSize, cb, fileNbr)
  {
    hide CodingParams.Valid, SourcePackets, RepairPackets, Cut, Pad;
    BlockSizes(file, p, cb);
    var k := p.KLarge - (if cb >= p.nLarge then 1 else 0);
    var room := if p.KLarge > nExtra then p.KLarge else nExtra;
    SpanMono(k, room, p.T);
    szRead := ReadBlock(file, pos, srcBlock, k, p.T);
    sent := SendSource(srcBlock, BlockRead(file, p, cb), szRead, p, fileNbr, k, fileSize);
    if nExtra > 0 {
      if !codecOk {
        return false, szRead, sent;
      }
      SpanMono(nExtra, room, p.T);
      var repair := SendRepair(srcBlock, p, k, fileNbr, nExtra, fileSize, enc);
      sent := sent + repair;
    }
    ok := true;
  }

  /** Block cb is read where the previous one ended, and only the last one falls short, by
      less than a symbol. */
  lemma BlockSizes(file: seq<Byte>, p: CodingParams, cb: nat)
    requires p.Valid(|file|) && cb < p.nCb
    ensures 1 <= p.BlockK(cb) <= p.KLarge
    ensures BlockStart(p, cb) < |file|
    ensures var n := |BlockRead(file, p, cb)|;
            && BlockStart(p, cb) + n == Min(BlockStart(p, cb + 1), |file|)
            && Span(p.BlockK(cb) - 1, p.T) < n
            && (n < Span(p.BlockK(cb), p.T) ==> cb == p.nCb - 1)
  {
    SymsBeforeMono(p, |file|, cb, cb + 1);
    assert p.SymsBefore(cb + 1) == p.SymsBefore(cb) + p.BlockK(cb);
    SpanAdd(p.SymsBefore(cb), p.BlockK(cb), p.T);
    BlockInside(p, |file|, cb);
    if cb + 1 < p.nCb {
      BlockInside(p, |file|, cb + 1);
    }
  }

  // ----- nothing of the file is left out or sent twice

  function Payloads(pkts: seq<Packet>): (ss: seq<seq<Byte>>)
    ensures |ss| == |pkts| && forall i :: 0 <= i < |ss| ==> ss[i] == pkts[i].payload
  {
    seq(|pkts|, i requires 0 <= i < |pkts| => pkts[i].payload)
  }

  lemma PrefixRun<X>(s: seq<X>, a: nat, b: nat)
    requires a <= b <= |s|
    ensures s[..a] + s[a..b] == s[..b]
  {
  }

  lemma PayloadIsRun(block: seq<Byte>, p: CodingParams, fileNbr: nat, j: nat, fileSize: UInt32)
    requires j <= PD_MAX_K
    ensures SourcePacket(block, p, fileNbr, j, fileSize).payload
         == block[Min(Span(j, p.T), |block|)..Min(Span(j + 1, p.T), |block|)]
  {
  }

  /** The payloads of the first n source packets of a block are its first n symbols' worth. */
  lemma {:induction false} SourcePayloadsAreBlock(block: seq<Byte>, p: CodingParams, fileNbr: nat, k: nat,
                                                  fileSize: UInt32, n: nat)
    requires n <= k <= PD_MAX_K
    ensures Join(Payloads(SourcePackets(block, p, fileNbr, k, fileSize)[..n])) == block[..Min(Span(n, p.T), |block|)]
  {
    hide SourcePacket;
    var pkts := SourcePackets(block, p, fileNbr, k, fileSize);
    if n > 0 {
      SourcePayloadsAreBlock(block, p, fileNbr, k, fileSize, n - 1);
      var list := Payloads(pkts[..n]);
      assert list[..n - 1] == Payloads(pkts[..n - 1]);
      PayloadIsRun(block, p, fileNbr, n - 1, fileSize);
      PrefixRun(block, Min(Span(n - 1, p.T), |block|), Min(Span(n, p.T), |block|));
    }
  }

  /** The payloads of all source packets of the first n blocks. */
  function SourceBytes(file: seq<Byte>, p: CodingParams, fileSize: UInt32, n: nat, fileNbr: nat): seq<Byte>
    requires p.KLarge <= PD_MAX_K
  {
    if n == 0 then []
    else
      SourceBytes(file, p, fileSize, n - 1, fileNbr) + Join(Payloads(BlockSource(file, p, fileSize, n - 1, fileNbr)))
  }

  /** For any number of blocks, the source packets carry the file up to the end of block n,
      and the whole file with the last block. */
  lemma {:induction false} SourceBytesAreFile(file: seq<Byte>, p: CodingParams, fileSize: UInt32, n: nat, fileNbr: nat)
    requires p.Valid(|file|) && p.KLarge <= PD_MAX_K && n <= p.nCb
    ensures SourceBytes(file, p, fileSize, n, fileNbr) == file[..Min(BlockStart(p, n), |file|)]
    ensures n == p.nCb ==> SourceBytes(file, p, fileSize, n, fileNbr) == file
  {
    hide BlockRead, BlockSource, Payloads, Join, CodingParams.Valid, BlockStart;
    FileBounds(file, p);
    if n > 0 {
      SourceBytesAreFile(file, p, fileSize, n - 1, fileNbr);
      BlockBytes(file, p, fileSize, n - 1, fileNbr);
      BlocksMeet(file, p, n - 1);
    }
  }

  lemma FileBounds(file: seq<Byte>, p: CodingParams)
    requires p.Valid(|file|)
    ensures file[..Min(BlockStart(p, 0), |file|)] == [] && file[..Min(BlockStart(p, p.nCb), |file|)] == file
  {
  }

  lemma BlocksMeet(file: seq<Byte>, p: CodingParams, cb: nat)
    requires p.Valid(|file|) && cb < p.nCb
    ensures file[..Min(BlockStart(p, cb), |file|)] + BlockRead(file, p, cb) == file[..Min(BlockStart(p, cb + 1), |file|)]
  {
    BlockSizes(file, p, cb);
    hide CodingParams.Valid;
    var a := BlockStart(p, cb);
    PrefixRun(file, a, a + |BlockRead(file, p, cb)|);
  }

  lemma BlockBytes(file: seq<Byte>, p: CodingParams, fileSize: UInt32, cb: nat, fileNbr: nat)
    requires Max0(p.BlockK(cb)) <= PD_MAX_K
    ensures Join(Payloads(BlockSource(file, p, fileSize, cb, fileNbr))) == BlockRead(file, p, cb)
  {
    var k, block := Max0(p.BlockK(cb)), BlockRead(file, p, cb);
    SourcePayloadsAreBlock(block, p, fileNbr, k, fileSize, k);
    var pkts := SourcePackets(block, p, fileNbr, k, fileSize);
    assert pkts[..k] == pkts && block[..|block|] == block;
  }

  // ----- one block

  /** fread into the buffer, and zeros up to the end of the block. */
  method ReadBlock(file: seq<Byte>, pos: nat, buf: array<Byte>, k: nat, t: nat) returns (szRead: nat)
    requires pos <= |file| && Span(k, t) <= buf.Length
    modifies buf
    ensures szRead == Min(|file| - pos, Span(k, t))
    ensures buf[..Span(k, t)] == Pad(file[pos..pos + szRead], Span(k, t))
  {
    szRead := Min(|file| - pos, Span(k, t));
    forall i | 0 <= i < szRead {
      buf[i] := file[pos + i];
    }
    if szRead < Span(k, t) {
      forall i | szRead <= i < Span(k, t) {
        buf[i] := 0;
      }
    }
  }

  /** The loop over source symbols. */
  method SendSource(buf: array<Byte>, ghost block: seq<Byte>, szRead: nat, p: CodingParams,
                    fileNbr: nat, k: nat, fileSize: UInt32) returns (sent: seq<Packet>)
    requires p.T == PD_T && 0 < k <= PD_MAX_K && Span(k, p.T) <= buf.Length
    requires szRead == |block| <= Span(k, p.T) && Span(k - 1, p.T) < szRead
    requires block == buf[..szRead]
    ensures sent == SourcePackets(block, p, fileNbr, k, fileSize)
  {
    sent := [];
    var j := 0;
    while j < k
      invariant 0 <= j <= k
      invariant sent == SourcePackets(block, p, fileNbr, k, fileSize)[..j]
    {
      SpanMono(j, k - 1, p.T);
      WindowFits(j, p.T, k);
      SpanIsProduct(j, PD_T);
      var payloadSize := p.T;
      if szRead - Span(j, p.T) < payloadSize {
        payloadSize := szRead - Span(j, p.T);
      }
      assert payloadSize <= PAYLOAD_MAX;
      var offs := Span(j, p.T);
      var payload := buf[offs..offs + payloadSize];
      SameRun(buf[..], block, szRead, offs, payloadSize);
      sent := sent + [Packet(HeaderFor(ROUTE_ENS_ID_SOURCE, fileNbr, j, fileSize), payload)];
      j := j + 1;
    }
  }

  /** Compute the repair symbols over the source block and send them. */
  method SendRepair(buf: array<Byte>, p: CodingParams, k: nat, fileNbr: nat, nExtra: nat,
                    fileSize: UInt32, enc: Encoder) returns (sent: seq<Packet>)
    requires p.T == PD_T && nExtra <= MAX_REPAIR
    requires Span(nExtra, p.T) <= buf.Length && Span(k, p.T) <= buf.Length
    requires Systematic(enc, p.T)
    modifies buf
    ensures sent == RepairPackets(Cut(old(buf[..Span(k, p.T)]), k, p.T), fileNbr, nExtra, fileSize, enc)
  {
    ghost var src := Cut(buf[..Span(k, p.T)], k, p.T);
    EncodeOver(buf, k, nExtra, p.T, enc);
    sent := SendSymbols(buf, src, p, fileNbr, nExtra, fileSize, enc);
  }

  /** The loop over repair symbols. */
  method SendSymbols(buf: array<Byte>, ghost src: seq<Symbol>, p: CodingParams, fileNbr: nat, nExtra: nat,
                     fileSize: UInt32, ghost enc: Encoder) returns (sent: seq<Packet>)
    requires p.T == PD_T && nExtra <= MAX_REPAIR && Span(nExtra, p.T) <= buf.Length
    requires Uniform(RepairSymbols(src, nExtra, enc), p.T)
    requires buf[..Span(nExtra, p.T)] == Join(RepairSymbols(src, nExtra, enc))
    ensures sent == RepairPackets(src, fileNbr, nExtra, fileSize, enc)
  {
    ghost var repair, all := RepairSymbols(src, nExtra, enc), buf[..Span(nExtra, p.T)];
    sent := [];
    var j := 0;
    while j < nExtra
      invariant 0 <= j <= nExtra
      invariant sent == RepairPackets(src, fileNbr, nExtra, fileSize, enc)[..j]
    {
      JoinWindow(repair, p.T, j);
      var offs := Span(j, p.T);
      SameRun(buf[..], all, |all|, offs, p.T);
      sent := sent + [Packet(HeaderFor(ROUTE_ENS_ID_REPAIR, fileNbr, j, fileSize), buf[offs..offs + p.T])];
      j := j + 1;
    }
  }

  /** The encoded symbols with ids K to K + n - 1. */
  function RepairSymbols(src: seq<Symbol>, n: nat, enc: Encoder): (r: seq<Symbol>)
    ensures |r| == n && forall j :: 0 <= j < n ==> r[j] == enc(src, |src| + j)
  {
    seq(n, j requires j >= 0 => enc(src, |src| + j))
  }

  /** The codec reads the source block and then overwrites the buffer with repair symbols. */
  method EncodeOver(buf: array<Byte>, k: nat, nExtra: nat, t: nat, enc: Encoder)
    requires Span(nExtra, t) <= buf.Length && Span(k, t) <= buf.Length
    requires Systematic(enc, t)
    modifies buf
    ensures var repair := RepairSymbols(Cut(old(buf[..Span(k, t)]), k, t), nExtra, enc);
            Uniform(repair, t) && buf[..Span(nExtra, t)] == Join(repair)
  {
    var src := Cut(buf[..Span(k, t)], k, t);
    CutUniform(buf[..Span(k, t)], k, t);
    var repair := RepairSymbols(src, nExtra, enc);
    JoinLength(repair, t);
    var data := Join(repair);
    forall i | 0 <= i < |data| {
      buf[i] := data[i];
    }
  }
}
