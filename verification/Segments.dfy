/** One file being received: from packet headers to symbols, and from decoded code blocks
    to the bytes written out. */
module Segments {
  import opened Bytes
  import opened ParamDeriv
  import opened SymbolStore

  const ROUTE_ENS_ID_SOURCE := 0
  const ROUTE_ENS_ID_REPAIR := 1

  datatype Header = Header(ensId: UInt16, toi: UInt16, payloadId: UInt32, tos: UInt32)
  datatype Packet = Packet(header: Header, payload: seq<Byte>)

  datatype Mode = Receiving | ReadyToWrite | Writing

  /** The symbol id a header stands for. */
  function SymbolId(p: CodingParams, h: Header): nat
    requires p.T > 0
  {
    if h.ensId == ROUTE_ENS_ID_SOURCE then h.payloadId / p.T else p.KLarge + h.payloadId / p.T
  }

  /** A header names a source symbol exactly when it is of the source ensemble and its offset
      is inside the source block; every other ensemble counts as repair. */
  lemma SourceHeaders(p: CodingParams, h: Header)
    requires p.T > 0
    ensures SymbolId(p, h) < p.KLarge <==> h.ensId == 0 && h.payloadId < Span(p.KLarge, p.T)
    ensures h.ensId != 0 ==> SymbolId(p, h) - p.KLarge == SymbolId(p, h.(ensId := 0))
  {
    var q := h.payloadId / p.T;
    assert h.payloadId == q * p.T + h.payloadId % p.T;
    SpanIsProduct(q, p.T);
    if q < p.KLarge {
      SpanMono(q + 1, p.KLarge, p.T);
    } else {
      SpanMono(p.KLarge, q, p.T);
    }
  }

  /** For accepted file sizes and any 32-bit payload id, hashing does not overflow. */
  lemma HashInRange(h: Header)
    requires 1 <= h.tos <= MAX_FILE_SIZE
    ensures DeriveParams(Int32(h.tos)).Some?
    ensures SymbolId(DeriveParams(Int32(h.tos)).value, h) * 29 < 0x8000_0000
  {
    AcceptedParams(h.tos);
  }

  datatype Segment = Segment(
    fileNbr: int, fileLen: nat, mode: Mode, P: CodingParams, stores: seq<Store>,
    outFd: int, outCb: int, outBuf: seq<Byte>, outOffs: nat)
  {
    /** The store of code block i belongs to that block. */
    ghost predicate StoreFor(i: nat)
      requires i < |stores|
    {
      stores[i].Valid() && stores[i].K == P.BlockK(i) && stores[i].T == P.T
    }

    ghost predicate Valid() {
      && P.Valid(fileLen)
      && |stores| == P.nCb
      && (forall i :: 0 <= i < |stores| ==> StoreFor(i))
      && (mode == Writing <==> outFd != -1)
      && (mode == Writing ==> Draining())
    }

    ghost predicate Draining() {
      && 0 <= outCb <= P.nCb
      && |outBuf| == Span(P.KLarge, P.T)
      && (outCb < P.nCb ==> outOffs < CbSize(outCb))
      && (outCb == P.nCb ==> outOffs == 0)
    }

    /** The bytes of code block cb that belong to the file: the last block gives up the
        padding of its last symbol. */
    function CbSize(cb: int): int
      requires 0 <= cb < P.nCb
    {
      var pad := if cb == P.nCb - 1 then Span(P.nSrcSymTot, P.T) - fileLen else 0;
      Span(Max0(P.BlockK(cb)), P.T) - pad
    }

    /** How many bytes of the current block are still to be written. */
    ghost function Room(): int
      requires Draining() && outCb < P.nCb
    {
      CbSize(outCb) - outOffs
    }

    /** The position in the file of the next byte to be written. */
    ghost function Pos(): int
      requires Draining()
    {
      if outCb == P.nCb then fileLen else Span(Max0(P.SymsBefore(outCb)), P.T) + outOffs
    }

    /** segstate_add_packet, when none of its assertions fails. */
    ghost function AddPacket(pkt: Packet): Segment
      requires Accepts(pkt)
    {
      this.(stores := stores[0 := stores[0].Add(SymbolId(P, pkt.header), pkt.payload)])
    }

    ghost predicate Accepts(pkt: Packet) {
      && pkt.header.toi == fileNbr
      && pkt.header.tos == fileLen
      && P.nCb == 1 && |stores| == 1 && 0 < stores[0].T == P.T
      && mode == Receiving
      && |pkt.payload| <= P.T
    }

    /** The output buffer after block cb was loaded over its previous contents. */
    ghost function Load(cb: nat, buf: seq<Byte>, dec: Decoder): seq<Byte>
      requires cb < |stores|
    {
      var data := stores[cb].GetData(dec).0;
      data + if |data| <= |buf| then buf[|data|..] else []
    }

    /** segstate_prepare_output; the first block is a large one and fills the buffer. */
    ghost function PrepareOutput(fd: int, dec: Decoder): Segment {
      this.(mode := Writing, outFd := fd, outCb := 0, outOffs := 0,
            outBuf := if |stores| > 0 then stores[0].GetData(dec).0 else [])
    }

    /** segstate_write_more when write() returns n: the new state, and whether more is to
        be written. dec is what the codec does if the next block has to be loaded. */
    ghost function WriteMore(n: int, dec: Decoder): (Segment, bool)
      requires Valid() && mode == Writing
      requires outCb < P.nCb ==> n <= Room()
    {
      if outCb == P.nCb || n < 0 then (this, false)
      else if outOffs + n < CbSize(outCb) then (this.(outOffs := outOffs + n), true)
      else if outCb + 1 == P.nCb then (this.(outOffs := 0, outCb := outCb + 1), false)
      else (this.(outOffs := 0, outCb := outCb + 1, outBuf := Load(outCb + 1, outBuf, dec)), true)
    }

    /** The bytes that call hands to write() and that write() takes. */
    ghost function Written(n: int): seq<Byte>
      requires Valid() && mode == Writing
      requires outCb < P.nCb ==> n <= Room()
    {
      if outCb == P.nCb || n <= 0 || outOffs + n > |outBuf| then [] else outBuf[outOffs..outOffs + n]
    }
  }

  function Max0(x: int): nat {
    if x < 0 then 0 else x
  }

  /** The empty stores of the first n code blocks. */
  ghost function NewStores(p: CodingParams, n: nat): seq<Store> {
    seq(n, i requires i >= 0 => Store(Max0(p.BlockK(i)), p.T, []))
  }

  /** segstate_init for a file size that param_deriv accepts. */
  ghost function NewSegment(fileNbr: int, fileLen: nat, p: CodingParams): Segment {
    Segment(fileNbr, fileLen, Receiving, p,
            NewStores(p, p.nCb), -1, -1, [], 0)
  }

  lemma NewSegmentValid(fileNbr: int, fileLen: nat, p: CodingParams)
    requires p.Valid(fileLen)
    ensures NewSegment(fileNbr, fileLen, p).Valid()
  {
  }

  lemma AddPacketValid(seg: Segment, pkt: Packet)
    requires seg.Valid() && seg.Accepts(pkt)
    ensures seg.AddPacket(pkt).Valid()
  {
    assert seg.StoreFor(0);
    AddKeepsValid(seg.stores[0], SymbolId(seg.P, pkt.header), pkt.payload);
  }

  // ----- block sizes add up to the file

  lemma {:induction false} SymsBeforeMono(p: CodingParams, fileLen: nat, a: nat, b: nat)
    requires p.Valid(fileLen) && a <= b <= p.nCb
    ensures 0 <= p.SymsBefore(a) <= p.SymsBefore(b) <= p.nSrcSymTot
    decreases b, p.nCb - b
  {
    SymsBeforeClosed(p, a);
    SymsBeforeClosed(p, b);
    if a < b {
      SymsBeforeMono(p, fileLen, a, b - 1);
    } else if a > 0 {
      SymsBeforeMono(p, fileLen, a - 1, a - 1);
    }
    SymsBeforeEnd(p, fileLen, b);
  }

  lemma {:induction false} SymsBeforeEnd(p: CodingParams, fileLen: nat, b: nat)
    requires p.Valid(fileLen) && b <= p.nCb
    ensures p.SymsBefore(b) <= p.nSrcSymTot
    decreases p.nCb - b
  {
    if b < p.nCb {
      SymsBeforeEnd(p, fileLen, b + 1);
      assert p.SymsBefore(b + 1) == p.SymsBefore(b) + p.BlockK(b);
    }
  }

  /** Every block contributes at least a byte, and ends where the next one starts; the
      last one ends at the end of the file. */
  lemma BlockEnd(seg: Segment, cb: nat)
    requires seg.P.Valid(seg.fileLen) && cb < seg.P.nCb
    ensures 0 <= seg.P.SymsBefore(cb) && 1 <= seg.P.BlockK(cb) <= seg.P.KLarge
    ensures 1 <= seg.CbSize(cb) <= Span(seg.P.BlockK(cb), seg.P.T)
    ensures Span(seg.P.SymsBefore(cb), seg.P.T) + seg.CbSize(cb) ==
            if cb + 1 == seg.P.nCb then seg.fileLen else Span(Max0(seg.P.SymsBefore(cb + 1)), seg.P.T)
    ensures Span(seg.P.SymsBefore(cb), seg.P.T) + seg.CbSize(cb) <= seg.fileLen
  {
    var p := seg.P;
    SymsBeforeMono(p, seg.fileLen, cb, cb + 1);
    assert p.SymsBefore(cb + 1) == p.SymsBefore(cb) + p.BlockK(cb);
    SpanAdd(p.SymsBefore(cb), p.BlockK(cb), p.T);
    SpanMono(1, p.BlockK(cb), p.T);
    assert Span(1, p.T) == p.T by { assert Span(0, p.T) == 0; }
    if cb + 1 < p.nCb {
      BlockInside(p, seg.fileLen, cb + 1);
    }
  }

  /** A block that is not the last ends before the last symbol. */
  lemma BlockInside(p: CodingParams, fileLen: nat, cb: nat)
    requires p.Valid(fileLen) && cb < p.nCb
    ensures 0 <= p.SymsBefore(cb)
    ensures Span(p.SymsBefore(cb), p.T) < fileLen
  {
    SymsBeforeMono(p, fileLen, cb, p.nCb - 1);
    SymsBeforeMono(p, fileLen, p.nCb - 1, p.nCb);
    assert p.SymsBefore(p.nCb) == p.SymsBefore(p.nCb - 1) + p.BlockK(p.nCb - 1);
    SpanMono(p.SymsBefore(cb) + 1, p.nSrcSymTot, p.T);
  }

  // ----- draining

  /** The code blocks as the codec gives them back, block i decoded with decs[i]. */
  ghost function Blocks(stores: seq<Store>, decs: seq<Decoder>): (b: seq<seq<Byte>>)
    requires |decs| == |stores|
    ensures |b| == |decs|
  {
    seq(|decs|, i requires 0 <= i < |decs| => stores[i].GetData(decs[i]).0)
  }

  /** The concatenated code blocks cut to the file length. */
  ghost function Content(stores: seq<Store>, fileLen: nat, decs: seq<Decoder>): seq<Byte>
    requires |decs| == |stores|
  {
    var all := Join(Blocks(stores, decs));
    if fileLen <= |all| then all[..fileLen] else all
  }

  lemma {:induction false} BlocksBefore(seg: Segment, decs: seq<Decoder>, cb: nat)
    requires seg.Valid() && |decs| == seg.P.nCb && cb <= seg.P.nCb
    ensures 0 <= seg.P.SymsBefore(cb)
    ensures |Join(Blocks(seg.stores, decs)[..cb])| == Span(seg.P.SymsBefore(cb), seg.P.T)
  {
    if cb > 0 {
      var k := cb - 1;
      BlocksBefore(seg, decs, k);
      JoinSnoc(Blocks(seg.stores, decs), k);
      BlockEnd(seg, k);
      assert seg.StoreFor(k);
      GetDataSize(seg.stores[k], decs[k]);
      SpanAdd(seg.P.SymsBefore(k), seg.P.BlockK(k), seg.P.T);
    }
  }

  lemma ContentLength(seg: Segment, decs: seq<Decoder>)
    requires seg.Valid() && |decs| == seg.P.nCb
    ensures |Content(seg.stores, seg.fileLen, decs)| == seg.fileLen
    ensures Content(seg.stores, seg.fileLen, decs) <= Join(Blocks(seg.stores, decs))
  {
    var blocks := Blocks(seg.stores, decs);
    BlocksBefore(seg, decs, seg.P.nCb);
    assert blocks[..seg.P.nCb] == blocks;
  }

  lemma BlockInJoin(seg: Segment, decs: seq<Decoder>, cb: nat)
    requires seg.Valid() && |decs| == seg.P.nCb && cb < seg.P.nCb
    ensures var blocks := Blocks(seg.stores, decs);
            && Join(blocks[..cb]) + blocks[cb] <= Join(blocks)
            && |Join(blocks[..cb])| == Span(Max0(seg.P.SymsBefore(cb)), seg.P.T)
            && seg.CbSize(cb) <= |blocks[cb]|
  {
    var blocks := Blocks(seg.stores, decs);
    BlockEnd(seg, cb);
    BlocksBefore(seg, decs, cb);
    assert seg.StoreFor(cb);
    GetDataSize(seg.stores[cb], decs[cb]);
    JoinSnoc(blocks, cb);
    JoinPrefix(blocks, cb + 1);
  }

  /** Block cb sits in the content at the span of the blocks before it. */
  lemma ContentOfBlock(seg: Segment, decs: seq<Decoder>, cb: nat, a: nat, n: nat)
    requires seg.Valid() && |decs| == seg.P.nCb && cb < seg.P.nCb
    requires a + n <= seg.CbSize(cb)
    ensures var start := Span(Max0(seg.P.SymsBefore(cb)), seg.P.T);
            var data := seg.stores[cb].GetData(decs[cb]).0;
            && a + n <= |data|
            && |Content(seg.stores, seg.fileLen, decs)| == seg.fileLen
            && start + a + n <= seg.fileLen
            && data[a..a + n] == Content(seg.stores, seg.fileLen, decs)[start + a..start + a + n]
  {
    hide Content, Join, Store.GetData, CodingParams.Valid;
    var blocks := Blocks(seg.stores, decs);
    var start := Span(Max0(seg.P.SymsBefore(cb)), seg.P.T);
    BlockInJoin(seg, decs, cb);
    BlockEnd(seg, cb);
    ContentLength(seg, decs);
    RunInside(Join(blocks[..cb]), start, blocks[cb], Join(blocks), Content(seg.stores, seg.fileLen, decs), a, n);
  }

  lemma RunInside(pre: seq<Byte>, s: nat, data: seq<Byte>, all: seq<Byte>, content: seq<Byte>, a: nat, n: nat)
    requires pre + data <= all && content <= all && s == |pre|
    requires a + n <= |data| && s + a + n <= |content|
    ensures data[a..a + n] == content[s + a..s + a + n]
  {
    forall i | a <= i < a + n
      ensures data[i] == content[s + i]
    {
      assert data[i] == (pre + data)[s + i];
      assert (pre + data)[s + i] == all[s + i];
    }
  }

  /** While a block is being written, the buffer starts with that block. */
  ghost predicate Loaded(seg: Segment, decs: seq<Decoder>)
    requires |decs| == |seg.stores|
  {
    0 <= seg.outCb < |decs| ==> seg.stores[seg.outCb].GetData(decs[seg.outCb]).0 <= seg.outBuf
  }

  lemma LoadSize(seg: Segment, cb: nat, buf: seq<Byte>, dec: Decoder)
    requires seg.P.Valid(seg.fileLen) && |seg.stores| == seg.P.nCb && cb < seg.P.nCb && seg.StoreFor(cb)
    requires |buf| == Span(seg.P.KLarge, seg.P.T)
    ensures |seg.Load(cb, buf, dec)| == |buf|
    ensures seg.stores[cb].GetData(dec).0 <= seg.Load(cb, buf, dec)
  {
    BlockEnd(seg, cb);
    GetDataSize(seg.stores[cb], dec);
    SpanMono(seg.P.BlockK(cb), seg.P.KLarge, seg.P.T);
  }

  lemma PrepareStarts(seg: Segment, fd: int, decs: seq<Decoder>)
    requires seg.Valid() && |decs| == seg.P.nCb && fd != -1
    ensures var seg' := seg.PrepareOutput(fd, decs[0]);
            seg'.Valid() && Loaded(seg', decs) && seg'.Pos() == 0
  {
    var seg' := seg.PrepareOutput(fd, decs[0]);
    assert seg.StoreFor(0);
    GetDataSize(seg.stores[0], decs[0]);
    BlockEnd(seg, 0);
    StoresKept(seg, seg');
  }

  lemma WrittenIsContent(seg: Segment, decs: seq<Decoder>, n: nat)
    requires seg.Valid() && seg.mode == Writing && |decs| == seg.P.nCb
    requires seg.outCb < seg.P.nCb && Loaded(seg, decs)
    requires n <= seg.Room()
    ensures 0 <= seg.Pos() && seg.Pos() + n <= seg.fileLen == |Content(seg.stores, seg.fileLen, decs)|
    ensures seg.Written(n) == Content(seg.stores, seg.fileLen, decs)[seg.Pos()..seg.Pos() + n]
  {
    var cb := seg.outCb;
    BlockEnd(seg, cb);
    ContentOfBlock(seg, decs, cb, seg.outOffs, n);
    var data := seg.stores[cb].GetData(decs[cb]).0;
    SameRun(data, seg.outBuf, |data|, seg.outOffs, n) by { assert seg.outBuf[..|data|] == data; }
  }

  /** What WriteMore does to the position, block by block. */
  lemma WriteMoves(seg: Segment, decs: seq<Decoder>, n: nat, dec: Decoder)
    requires seg.Valid() && seg.mode == Writing && |decs| == seg.P.nCb
    requires seg.outCb < seg.P.nCb && Loaded(seg, decs)
    requires n <= seg.Room()
    requires seg.outCb + 1 < seg.P.nCb ==> dec == decs[seg.outCb + 1]
    ensures var (seg', more) := seg.WriteMore(n, dec);
            && seg'.Valid() && Loaded(seg', decs)
            && seg'.Pos() == seg.Pos() + n
            && (more <==> seg'.outCb < seg.P.nCb)
  {
    var (seg', more) := seg.WriteMore(n, dec);
    StoresKept(seg, seg');
    BlockEnd(seg, seg.outCb);
    if seg.outOffs + n == seg.CbSize(seg.outCb) && seg.outCb + 1 < seg.P.nCb {
      NextBlock(seg, decs, dec);
    }
  }

  /** Moving on to the next block. */
  lemma NextBlock(seg: Segment, decs: seq<Decoder>, dec: Decoder)
    requires seg.Valid() && seg.mode == Writing && |decs| == seg.P.nCb
    requires seg.outCb + 1 < seg.P.nCb && dec == decs[seg.outCb + 1]
    ensures var seg' := seg.(outOffs := 0, outCb := seg.outCb + 1, outBuf := seg.Load(seg.outCb + 1, seg.outBuf, dec));
            && seg'.Draining() && Loaded(seg', decs)
            && seg'.Pos() == Span(Max0(seg.P.SymsBefore(seg.outCb + 1)), seg.P.T)
  {
    var cb := seg.outCb + 1;
    BlockEnd(seg, cb);
    assert seg.StoreFor(cb);
    LoadSize(seg, cb, seg.outBuf, dec);
    var seg' := seg.(outOffs := 0, outCb := cb, outBuf := seg.Load(cb, seg.outBuf, dec));
    assert seg'.CbSize(cb) == seg.CbSize(cb);
  }

  /** One write takes the next n bytes of the content, and there is more to write exactly
      when the end of the file has not been reached. */
  lemma WriteAdvances(seg: Segment, decs: seq<Decoder>, n: nat, dec: Decoder)
    requires seg.Valid() && seg.mode == Writing && |decs| == seg.P.nCb
    requires seg.outCb < seg.P.nCb && Loaded(seg, decs)
    requires n <= seg.Room()
    requires seg.outCb + 1 < seg.P.nCb ==> dec == decs[seg.outCb + 1]
    ensures 0 <= seg.Pos() && seg.Pos() + n <= seg.fileLen == |Content(seg.stores, seg.fileLen, decs)|
    ensures seg.Written(n) == Content(seg.stores, seg.fileLen, decs)[seg.Pos()..seg.Pos() + n]
    ensures var (seg', more) := seg.WriteMore(n, dec);
            && seg'.Valid() && Loaded(seg', decs)
            && seg'.Pos() == seg.Pos() + n
            && (more <==> seg'.Pos() < seg.fileLen)
            && (more <==> seg'.outCb < seg.P.nCb)
  {
    WrittenIsContent(seg, decs, n);
    WriteMoves(seg, decs, n, dec);
    var (seg', more) := seg.WriteMore(n, dec);
    if more {
      PosBelowEnd(seg');
    }
  }

  /** A failed write changes nothing and is final. */
  lemma FailedWriteIsFinal(seg: Segment, n: int, dec: Decoder)
    requires seg.Valid() && seg.mode == Writing && n < 0
    ensures seg.WriteMore(n, dec) == (seg, false) && seg.Written(n) == []
  {
  }

  lemma StoresKept(seg: Segment, seg': Segment)
    requires seg.Valid() && seg'.stores == seg.stores && seg'.P == seg.P && seg'.fileLen == seg.fileLen
    ensures forall i :: 0 <= i < |seg'.stores| ==> seg'.StoreFor(i)
    ensures forall i :: 0 <= i < seg.P.nCb ==> seg'.CbSize(i) == seg.CbSize(i)
  {
    forall i | 0 <= i < |seg'.stores|
      ensures seg'.StoreFor(i)
    {
      assert seg.StoreFor(i);
    }
  }

  datatype Drain = Drain(seg: Segment, emitted: seq<Byte>, done: bool)

  /** The drain has written the content up to the position, and knows when it is through. */
  ghost predicate OnCourse(d: Drain, seg: Segment, decs: seq<Decoder>) {
    && d.seg.Valid() && d.seg.mode == Writing
    && d.seg.P == seg.P && d.seg.stores == seg.stores && d.seg.fileLen == seg.fileLen
    && |decs| == seg.P.nCb
    && Loaded(d.seg, decs)
    && |Content(seg.stores, seg.fileLen, decs)| == seg.fileLen
    && 0 <= d.seg.Pos() <= seg.fileLen
    && d.emitted == Content(seg.stores, seg.fileLen, decs)[..d.seg.Pos()]
    && (d.done <==> d.seg.outCb == seg.P.nCb)
    && (d.done <==> d.seg.Pos() == seg.fileLen)
  }

  /** What write() takes of the rest of the block when it can take up to take bytes. */
  ghost function Take(seg: Segment, take: nat): (n: nat)
    requires seg.Draining() && seg.outCb < seg.P.nCb
    ensures n <= seg.Room()
  {
    Min(take, seg.Room())
  }

  /** The decoder of the next block, if there is one. */
  ghost function NextDecoder(seg: Segment, decs: seq<Decoder>): Decoder
    requires 0 <= seg.outCb < |decs|
  {
    if seg.outCb + 1 < |decs| then decs[seg.outCb + 1] else decs[0]
  }

  /** One more call of segstate_write_more, with a descriptor that takes up to take bytes. */
  ghost function DrainStep(d: Drain, decs: seq<Decoder>, take: nat): Drain
    requires d.seg.Valid() && d.seg.mode == Writing && |decs| == d.seg.P.nCb
  {
    if d.seg.outCb == d.seg.P.nCb then
      var (seg', more) := d.seg.WriteMore(take, decs[0]);
      Drain(seg', d.emitted + d.seg.Written(take), !more)
    else
      var n := Take(d.seg, take);
      var (seg', more) := d.seg.WriteMore(n, NextDecoder(d.seg, decs));
      Drain(seg', d.emitted + d.seg.Written(n), !more)
  }

  lemma DrainStepOnCourse(d: Drain, seg: Segment, decs: seq<Decoder>, take: nat)
    requires OnCourse(d, seg, decs)
    ensures OnCourse(DrainStep(d, decs, take), seg, decs)
  {
    if !d.done {
      WriteOnCourse(d, seg, decs, Take(d.seg, take), NextDecoder(d.seg, decs));
    }
  }

  lemma DrainStepProgress(d: Drain, seg: Segment, decs: seq<Decoder>, take: nat)
    requires OnCourse(d, seg, decs)
    ensures take > 0 && !d.done ==> |DrainStep(d, decs, take).emitted| > |d.emitted|
    ensures d.done ==> DrainStep(d, decs, take) == d
  {
    if !d.done {
      PosBelowEnd(d.seg);
      WrittenIsContent(d.seg, decs, Take(d.seg, take));
    }
  }

  lemma WriteOnCourse(d: Drain, seg: Segment, decs: seq<Decoder>, n: nat, dec: Decoder)
    requires OnCourse(d, seg, decs) && !d.done
    requires n <= d.seg.Room()
    requires d.seg.outCb + 1 < seg.P.nCb ==> dec == decs[d.seg.outCb + 1]
    ensures var (seg', more) := d.seg.WriteMore(n, dec);
            OnCourse(Drain(seg', d.emitted + d.seg.Written(n), !more), seg, decs)
  {
    WriteAdvances(d.seg, decs, n, dec);
    var (seg', more) := d.seg.WriteMore(n, dec);
    AdvanceOnCourse(d, seg, decs, seg', d.seg.Written(n), n, more);
  }

  ghost predicate SameFile(a: Segment, b: Segment) {
    a.P == b.P && a.stores == b.stores && a.fileLen == b.fileLen && a.mode == b.mode
  }

  lemma AdvanceOnCourse(d: Drain, seg: Segment, decs: seq<Decoder>,
                        seg': Segment, w: seq<Byte>, n: nat, more: bool)
    requires OnCourse(d, seg, decs) && SameFile(d.seg, seg')
    requires d.seg.Pos() + n <= seg.fileLen
    requires w == Content(seg.stores, seg.fileLen, decs)[d.seg.Pos()..d.seg.Pos() + n]
    requires seg'.Valid() && Loaded(seg', decs)
    requires seg'.Pos() == d.seg.Pos() + n
    requires (more <==> seg'.Pos() < seg.fileLen) && (more <==> seg'.outCb < seg.P.nCb)
    ensures OnCourse(Drain(seg', d.emitted + w, !more), seg, decs)
  {
    PrefixGrows(Content(seg.stores, seg.fileLen, decs), d.seg.Pos(), n);
  }

  lemma PrefixGrows<X>(c: seq<X>, p: nat, n: nat)
    requires p + n <= |c|
    ensures c[..p] + c[p..p + n] == c[..p + n]
  {
  }

  /** Calls of segstate_write_more until it says false, when call i finds a descriptor
      that takes up to takes[i] bytes. */
  ghost function RunDrain(seg: Segment, decs: seq<Decoder>, takes: seq<nat>): (d: Drain)
    requires OnCourse(Drain(seg, [], false), seg, decs)
    ensures OnCourse(d, seg, decs)
  {
    if |takes| == 0 then Drain(seg, [], false)
    else
      var d := RunDrain(seg, decs, takes[..|takes| - 1]);
      DrainStepOnCourse(d, seg, decs, takes[|takes| - 1]);
      DrainStep(d, decs, takes[|takes| - 1])
  }

  lemma DrainStarts(seg: Segment, fd: int, decs: seq<Decoder>)
    requires seg.Valid() && |decs| == seg.P.nCb && fd != -1
    ensures var seg' := seg.PrepareOutput(fd, decs[0]);
            OnCourse(Drain(seg', [], false), seg', decs)
  {
    PrepareStarts(seg, fd, decs);
    var seg' := seg.PrepareOutput(fd, decs[0]);
    PosBelowEnd(seg');
    ContentLength(seg', decs);
  }

  /** For any number of code blocks and any write counts, what has been emitted is a prefix
      of the content, the drain is done exactly when all fileLen bytes are out, and writes
      of at least one byte finish it within fileLen calls. */
  lemma {:induction false} DrainEmitsContent(seg: Segment, decs: seq<Decoder>, takes: seq<nat>)
    requires OnCourse(Drain(seg, [], false), seg, decs)
    ensures var d := RunDrain(seg, decs, takes);
            && d.emitted <= Content(seg.stores, seg.fileLen, decs)
            && (d.done <==> d.emitted == Content(seg.stores, seg.fileLen, decs))
            && ((forall i :: 0 <= i < |takes| ==> takes[i] > 0) ==> d.done || |d.emitted| >= |takes|)
  {
    if |takes| > 0 {
      var front, last := takes[..|takes| - 1], takes[|takes| - 1];
      DrainEmitsContent(seg, decs, front);
      DrainStepProgress(RunDrain(seg, decs, front), seg, decs, last);
    }
  }

  lemma PosBelowEnd(seg: Segment)
    requires seg.Valid() && seg.mode == Writing && seg.outCb < seg.P.nCb
    ensures 0 <= seg.Pos() < seg.Pos() + seg.Room() <= seg.fileLen
  {
    BlockEnd(seg, seg.outCb);
  }
}
