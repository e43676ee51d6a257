/** The receiver's state of one file, updated in place. */
module SegStates {
  import opened Bytes
  import opened ParamDeriv
  import opened ProbeTable
  import opened SymbolStore
  import opened CodeBlockStates
  import opened Segments

  /** The output related fields: descriptor, block being written, buffer and position. */
  datatype OutState = OutState(fd: int, cb: int, buf: array?<Byte>, bufSz: nat, bufOffs: nat)

  const NO_OUTPUT := OutState(-1, -1, null, 0, 0)

  class SegState {
    var fileNbr: int
    var fileLen: nat
    var mode: Mode
    var P: CodingParams
    var cbstates: seq<CodeBlockState>
    var out: OutState

    /** What the code block states hold, and the memory they use. */
    ghost var stores: seq<Store>
    ghost var blockRepr: set<object>

    ghost function Repr(): (r: set<object>)
      reads this
      ensures this in r
    {
      {this} + blockRepr + (if out.buf == null then {} else {out.buf})
    }

    /** The parts do not overlap. */
    ghost predicate Apart()
      reads this
    {
      this !in blockRepr && (out.buf != null ==> out.buf !in blockRepr)
    }

    /** The abstract segment this object implements. */
    ghost function Seg(): Segment
      reads this, out.buf
    {
      Segment(fileNbr, fileLen, mode, P, stores, out.fd, out.cb,
              if out.buf == null then [] else out.buf[..], out.bufOffs)
    }

    /** Mode and number are those of the segment it stands for. */
    lemma SegFields()
      ensures Seg().mode == mode && Seg().fileNbr == fileNbr
    {
    }

    ghost predicate Valid()
      reads Repr()
      ensures Valid() ==> Apart()
    {
      && Apart()
      && Seg().Valid()
      && BlocksHold(cbstates, stores, blockRepr)
    }

    /** Memory for a segment, as yet without a file. */
    constructor ()
      ensures Apart() && Repr() == {this}
    {
      cbstates := [];
      out := NO_OUTPUT;
      blockRepr := {};
    }

    /** Start receiving a file; false if the size is not acceptable. */
    method Init(fileNbr: int, tos: UInt32) returns (ok: bool)
      modifies this
      ensures ok <==> DeriveParams(Int32(tos)).Some?
      ensures ok ==> Valid() && Seg() == NewSegment(fileNbr, tos, DeriveParams(Int32(tos)).value)
      ensures ok ==> this.fileNbr == fileNbr && fresh(Repr() - {this})
      ensures !ok ==> unchanged(this)
    {
      AcceptedSizes(tos);
      var derived := DeriveParams(Int32(tos));
      if derived.None? {
        return false;
      }
      AcceptedParams(tos);
      NewSegmentValid(fileNbr, tos, derived.value);
      var cbs, repr := NewBlocks(derived.value);
      SetUp(fileNbr, tos, derived.value, cbs, repr);
      return true;
    }

    method SetUp(fileNbr: int, fileLen: nat, p: CodingParams, cbs: seq<CodeBlockState>, ghost repr: set<object>)
      requires this !in repr && BlocksHold(cbs, NewStores(p, p.nCb), repr)
      modifies this
      ensures Apart() && BlocksHold(cbstates, stores, blockRepr)
      ensures Seg() == NewSegment(fileNbr, fileLen, p) && this.fileNbr == fileNbr
      ensures Repr() == {this} + repr
    {
      hide BlocksHold, NewStores;
      this.fileNbr := fileNbr;
      this.fileLen := fileLen;
      P := p;
      cbstates := cbs;
      mode := Receiving;
      out := NO_OUTPUT;
      stores := NewStores(p, p.nCb);
      blockRepr := repr;
    }

    /** Release the file's memory. */
    method Free()
      requires Apart()
      modifies this
      ensures Apart() && Repr() == {this}
    {
      out := out.(buf := null);
      cbstates := [];
      blockRepr := {};
    }

    /** Add a packet of this file; the preconditions are the assertions of the source. */
    method AddPacket(pkt: Packet)
      requires Valid() && Seg().Accepts(pkt)
      requires SymbolId(P, pkt.header) * H_MULT < 0x8000_0000
      modifies Repr()
      ensures Valid() && Repr() == old(Repr())
      ensures Seg() == old(Seg()).AddPacket(pkt)
    {
      hide BlocksHold, Segment.Valid;
      var symbId := if pkt.header.ensId == ROUTE_ENS_ID_SOURCE
                    then pkt.header.payloadId / P.T
                    else P.KLarge + pkt.header.payloadId / P.T;
      AddPacketValid(Seg(), pkt);
      AddToOnlyBlock(symbId, pkt.payload);
    }

    /** There is just one code block. */
    method AddToOnlyBlock(symbId: nat, payload: seq<Byte>)
      requires this !in blockRepr && BlocksHold(cbstates, stores, blockRepr)
      requires |stores| == 1 && |payload| <= stores[0].T && symbId * H_MULT < 0x8000_0000
      modifies blockRepr, `stores
      ensures BlocksHold(cbstates, stores, blockRepr)
      ensures stores == old(stores)[0 := old(stores)[0].Add(symbId, payload)]
    {
      hide Holds, Fill, Stop, Insert, CodeBlockState.Low;
      var cb := cbstates[0];
      assert cb.Valid() && cb.store == stores[0] && cb.Repr() <= blockRepr;
      ghost var _ := cb.AddSym(symbId, payload);
      stores := [cb.store];
      assert cbstates == [cb];
      assert stores == old(stores)[0 := cb.store];
    }

    method ReadyForWrite()
      requires Valid() && mode == Receiving
      modifies `mode
      ensures Valid() && Repr() == old(Repr())
      ensures Seg() == old(Seg()).(mode := ReadyToWrite)
    {
      StoresKept(Seg(), Seg().(mode := ReadyToWrite));
      mode := ReadyToWrite;
    }

    /** Decode the first block into a new output buffer for the open file. */
    method PrepareOutput(fd: int, dec: Decoder)
      requires Valid() && out.fd == -1 && fd != -1
      modifies this
      ensures Valid() && fresh(Repr() - old(Repr()))
      ensures Seg() == old(Seg()).PrepareOutput(fd, dec)
    {
      PrepareStarts(Seg(), fd, seq(P.nCb, _ => dec));
      FirstBlockFills(Seg(), dec);
      var size := Span(P.KLarge, P.T);
      var buf := FirstBlock(size, dec);
      mode, out := Writing, OutState(fd, 0, buf, size, 0);
    }

    /** A new buffer holding the first block, which fills it. */
    method FirstBlock(size: nat, dec: Decoder) returns (buf: array<Byte>)
      requires BlocksHold(cbstates, stores, blockRepr)
      requires |stores| > 0 && stores[0].Valid() && size == Span(stores[0].K, stores[0].T)
      requires |stores[0].GetData(dec).0| == size
      ensures fresh(buf) && buf.Length == size
      ensures buf[..] == stores[0].GetData(dec).0
    {
      buf := new Byte[size];
      LoadBlock(cbstates[0], buf, dec);
    }

    /** Write from the current block, n being what write() returns; true if more is to be
        written. */
    method WriteMore(n: int, dec: Decoder) returns (more: bool, written: seq<Byte>)
      requires Valid() && mode == Writing
      requires out.cb < P.nCb ==> n <= Seg().Room()
      modifies Repr()
      ensures Valid() && Repr() == old(Repr())
      ensures (Seg(), more) == old(Seg()).WriteMore(n, dec)
      ensures written == old(Seg()).Written(n)
    {
      WriteMoreValid(Seg(), n, dec);
      if out.cb == P.nCb || n < 0 {
        return false, [];
      }
      NextLoadable(Seg());
      more, written := WriteSome(n, dec);
    }

    /** write() took n bytes of the current block. */
    method WriteSome(n: nat, dec: Decoder) returns (more: bool, written: seq<Byte>)
      requires Valid() && mode == Writing && out.cb < P.nCb
      requires n <= Seg().Room() && Loadable(Seg())
      modifies `out, out.buf
      ensures Apart() && BlocksHold(cbstates, stores, blockRepr) && Repr() == old(Repr())
      ensures (Seg(), more) == old(Seg()).WriteMore(n, dec)
      ensures written == old(Seg()).Written(n)
    {
      hide BlocksHold;
      var cbSize := CurrentSize();
      hide Segment.Valid;
      written := out.buf[out.bufOffs..out.bufOffs + n];
      if out.bufOffs + n < cbSize {
        more := Proceed(n);
      } else {
        more := MoveOn(dec);
      }
    }

    /** Inside a block only the position changes. */
    method Proceed(n: nat) returns (more: bool)
      requires Apart() && BlocksHold(cbstates, stores, blockRepr)
      modifies `out
      ensures Apart() && BlocksHold(cbstates, stores, blockRepr) && Repr() == old(Repr())
      ensures more && Seg() == old(Seg()).(outOffs := old(out).bufOffs + n)
    {
      out := out.(bufOffs := out.bufOffs + n);
      more := true;
    }

    /** The number of bytes to write of the current block. */
    method CurrentSize() returns (cbSize: nat)
      requires Seg().Valid() && mode == Writing && out.cb < P.nCb
      ensures cbSize == Seg().CbSize(out.cb) && out.bufOffs < cbSize
      ensures out.buf != null && cbSize <= out.buf.Length
    {
      BlockEnd(Seg(), out.cb);
      var pad := 0;
      if out.cb == P.nCb - 1 {
        pad := Span(P.nSrcSymTot, P.T) - fileLen;
        assert pad < P.T;
      }
      SpanMono(P.BlockK(out.cb), P.KLarge, P.T);
      cbSize := Span(P.KLarge - (if out.cb >= P.nLarge then 1 else 0), P.T) - pad;
    }

    /** The end of a block: load the next one, if there is one. */
    method MoveOn(dec: Decoder) returns (more: bool)
      requires Apart() && BlocksHold(cbstates, stores, blockRepr)
      requires Loadable(Seg()) && out.buf != null
      modifies `out, out.buf
      ensures Apart() && BlocksHold(cbstates, stores, blockRepr) && Repr() == old(Repr())
      ensures more <==> old(out).cb + 1 < P.nCb
      ensures Seg() == AfterBlock(old(Seg()), dec)
    {
      hide BlocksHold, Store.GetData, Store.Valid;
      out := out.(bufOffs := 0, cb := out.cb + 1);
      if out.cb == P.nCb {
        return false;
      }
      LoadCbBuf(dec);
      return true;
    }

    /** Decode block out.cb over the output buffer. */
    method LoadCbBuf(dec: Decoder)
      requires Apart() && BlocksHold(cbstates, stores, blockRepr)
      requires out.buf != null && 0 <= out.cb < |stores|
      requires Span(stores[out.cb].K, stores[out.cb].T) <= out.buf.Length
      modifies out.buf
      ensures BlocksHold(cbstates, stores, blockRepr)
      ensures Seg() == old(Seg()).(outBuf := old(Seg()).Load(out.cb, old(Seg()).outBuf, dec))
    {
      var cb := cbstates[out.cb];
      assert cb.Valid() && cb.store == stores[out.cb];
      hide BlocksHold, CodeBlockState.Valid, Store.GetData, Store.Valid;
      LoadBlock(cb, out.buf, dec);
    }
  }

  /** The next block, if there is one, fits the output buffer. */
  ghost predicate Loadable(seg: Segment) {
    && 0 <= seg.outCb < seg.P.nCb == |seg.stores|
    && (seg.outCb + 1 < seg.P.nCb ==>
          var st := seg.stores[seg.outCb + 1];
          st.Valid() && Span(st.K, st.T) <= |seg.outBuf|)
  }

  /** The segment when its current block has been written. */
  ghost function AfterBlock(seg: Segment, dec: Decoder): Segment
    requires 0 <= seg.outCb < seg.P.nCb == |seg.stores|
  {
    var next := seg.(outOffs := 0, outCb := seg.outCb + 1);
    if next.outCb == seg.P.nCb then next else next.(outBuf := seg.Load(next.outCb, seg.outBuf, dec))
  }

  lemma NextLoadable(seg: Segment)
    requires seg.Valid() && seg.mode == Writing && seg.outCb < seg.P.nCb
    ensures Loadable(seg)
  {
    if seg.outCb + 1 < seg.P.nCb {
      assert seg.StoreFor(seg.outCb + 1);
      SpanMono(seg.P.BlockK(seg.outCb + 1), seg.P.KLarge, seg.P.T);
    }
  }

  /** Overwrite the start of the buffer with the decoded block. */
  method LoadBlock(cb: CodeBlockState, buf: array<Byte>, dec: Decoder)
    requires cb.Valid() && buf !in cb.Repr() && Span(cb.K, cb.T) <= buf.Length
    modifies buf
    ensures var data := cb.store.GetData(dec).0;
            && |data| <= buf.Length
            && buf[..] == data + old(buf[..])[|data|..]
  {
    hide Store.GetData, Store.Valid, Holds, Fill;
    GetDataSize(cb.store, dec);
    ghost var n := Span(cb.K, cb.T);
    var _ := cb.GetData(buf, dec);
    assert buf[..] == buf[..n] + buf[n..];
    assert old(buf[n..]) == old(buf[..])[n..];
  }

  lemma FirstBlockFills(seg: Segment, dec: Decoder)
    requires seg.Valid()
    ensures 0 < |seg.stores| && seg.StoreFor(0)
    ensures seg.stores[0].K == seg.P.KLarge && seg.stores[0].T == seg.P.T
    ensures |seg.stores[0].GetData(dec).0| == Span(seg.P.KLarge, seg.P.T)
  {
    assert seg.StoreFor(0);
    GetDataSize(seg.stores[0], dec);
  }

  /** The code block states, in the memory repr, implement the stores. */
  ghost predicate BlocksHold(cbs: seq<CodeBlockState>, stores: seq<Store>, repr: set<object>)
    reads repr
  {
    && |cbs| == |stores|
    && (forall i :: 0 <= i < |cbs| ==> cbs[i].Repr() <= repr)
    && (forall i :: 0 <= i < |cbs| ==> cbs[i].Valid() && cbs[i].store == stores[i])
  }

  /** A code block state for every block: the large ones first. */
  method NewBlocks(p: CodingParams) returns (cbs: seq<CodeBlockState>, ghost repr: set<object>)
    requires p.T > 0 && 1 <= p.nLarge <= p.nCb && 1 <= p.KLarge
    requires p.nLarge < p.nCb ==> 2 <= p.KLarge
    ensures fresh(repr)
    ensures BlocksHold(cbs, NewStores(p, p.nCb), repr)
  {
    cbs := [];
    repr := {};
    var i := 0;
    while i < p.nCb
      invariant 0 <= i <= p.nCb
      invariant fresh(repr)
      invariant BlocksHold(cbs, NewStores(p, i), repr)
    {
      var cb := new CodeBlockState(if i < p.nLarge then p.KLarge else p.KLarge - 1, p.T);
      assert NewStores(p, i + 1) == NewStores(p, i) + [cb.store];
      cbs := cbs + [cb];
      repr := repr + cb.Repr();
      i := i + 1;
    }
  }

  lemma WriteMoreValid(seg: Segment, n: int, dec: Decoder)
    requires seg.Valid() && seg.mode == Writing
    requires seg.outCb < seg.P.nCb ==> n <= seg.Room()
    ensures seg.WriteMore(n, dec).0.Valid()
  {
    if seg.outCb < seg.P.nCb && n >= 0 {
      StoresKept(seg, seg.WriteMore(n, dec).0);
      BlockEnd(seg, seg.outCb);
      if seg.outOffs + n == seg.CbSize(seg.outCb) && seg.outCb + 1 < seg.P.nCb {
        NextBlock(seg, seq(seg.P.nCb, _ => dec), dec);
      }
    }
  }
}
