/** The receiver's event loop as a transition system: one step per loop iteration, with
    everything the outside world decides carried by the event. */
module Receiver {
  import opened Wrappers
  import opened Bytes
  import opened ParamDeriv
  import opened SymbolStore
  import opened Segments

  const SEGSTATE_SET_N := 4

  // ----- what the world does

  datatype Event =
    | Recv(pkt: Packet, open: int, dec: Decoder)     // a datagram was read
    | Timeout(open: int, dec: Decoder)               // the deadline of the first write passed
    | Writable(n: int, open: int, dec: Decoder)      // write() returned n
    | SignalReady                                    // the ready descriptor took its byte

  // ----- state

  /** History of one file: what was added to its segment and what was written out. */
  datatype FileLog = FileLog(tos: UInt32, pkts: seq<Packet>, dec: Option<Decoder>,
                             out: seq<Byte>, failed: bool)

  datatype State = State(
    min: int, segs: map<int, Segment>,
    started: bool, writeOk: bool, outFd: int, recvFileNbr: int, readyFd: int,
    files: map<int, FileLog>, openLog: seq<int>)
  {
    ghost predicate HeadReady() {
      min in segs && segs[min].mode == ReadyToWrite
    }

    ghost function FileOf(f: int): FileLog {
      if f in files then files[f] else FileLog(0, [], None, [], false)
    }

    ghost predicate HeadWriting() {
      min in segs && segs[min].mode == Writing
    }
  }

  function Init(readyFd: int): State {
    State(0, map[], false, false, -1, -1, readyFd, map[], [])
  }

  datatype Result = Running(s: State) | Aborted | Impossible

  // ----- steps

  /** task_start_write: open the output of the head segment if that is ready. */
  ghost function StartWrite(s: State, open: int, dec: Decoder): State {
    if !s.HeadReady() || open < 0 then s
    else s.(segs := s.segs[s.min := s.segs[s.min].PrepareOutput(open, dec)],
            outFd := open,
            files := s.files[s.min := s.FileOf(s.min).(dec := Some(dec))],
            openLog := s.openLog + [s.min])
  }

  /** task_write, when the head segment is being written and write() returns n. */
  ghost function TaskWrite(s: State, n: int, open: int, dec: Decoder): State
    requires CanWrite(s, n)
  {
    var seg, file := s.segs[s.min], s.FileOf(s.min);
    var (seg', more) := seg.WriteMore(n, dec);
    var file' := file.(out := file.out + seg.Written(n), failed := file.failed || n < 0);
    if more then s.(segs := s.segs[s.min := seg'], files := s.files[s.min := file'])
    else
      var s' := s.(min := s.min + 1, segs := s.segs - {s.min}, outFd := -1, files := s.files[s.min := file']);
      StartWrite(s', open, dec)
  }

  ghost predicate CanWrite(s: State, n: int) {
    && s.HeadWriting()
    && s.segs[s.min].Valid()
    && (s.segs[s.min].outCb < s.segs[s.min].P.nCb ==> n <= s.segs[s.min].Room())
  }

  /** segstateset_mark_readytowrite. */
  ghost function MarkReady(segs: map<int, Segment>, limit: int): map<int, Segment> {
    map f | f in segs ::
      if segs[f].mode == Receiving && segs[f].fileNbr < limit then segs[f].(mode := ReadyToWrite) else segs[f]
  }

  /** The first packet of a file: set up its segment. */
  ghost function Begin(s: State, f: int, tos: UInt32, p: CodingParams): State {
    s.(started := true,
       segs := s.segs[f := NewSegment(f, tos, p)],
       files := s.files[f := FileLog(tos, [], None, [], false)])
  }

  /** A file beyond all earlier ones has begun: those can be written. */
  ghost function Advance(s: State, f: int, open: int, dec: Decoder): State {
    if f <= s.recvFileNbr then s
    else
      var s' := s.(recvFileNbr := f, segs := MarkReady(s.segs, f));
      if s.writeOk && s.outFd == -1 then StartWrite(s', open, dec) else s'
  }

  /** segstate_add_packet on the segment of the packet's file, with its assertions. */
  ghost function Deliver(s: State, pkt: Packet): Result {
    var f := pkt.header.toi;
    if f in s.segs && s.segs[f].Accepts(pkt)
    then Running(s.(segs := s.segs[f := s.segs[f].AddPacket(pkt)],
                    files := s.files[f := s.FileOf(f).(pkts := s.FileOf(f).pkts + [pkt])]))
    else Aborted
  }

  ghost function TaskRecv(s: State, pkt: Packet, open: int, dec: Decoder): Result {
    var f := pkt.header.toi;
    if f < s.min || f >= s.min + SEGSTATE_SET_N then Running(s)
    else if f in s.segs then Deliver(s, pkt)
    else match DeriveParams(Int32Nat(pkt.header.tos))
      case None => Aborted
      case Some(p) => Deliver(Advance(Begin(s, f, pkt.header.tos, p), f, open, dec), pkt)
  }

  function Int32Nat(tos: UInt32): (x: int)
    ensures -0x8000_0000 <= x < 0x8000_0000
  {
    Int32(tos)
  }

  /** Which events select() can report in a state. */
  ghost predicate Enabled(s: State, e: Event) {
    match e
    case Recv(_, _, _) => true
    case Timeout(_, _) => s.outFd == -1 && s.started && !s.writeOk
    case Writable(n, _, _) => s.outFd != -1 && CanWrite(s, n)
    case SignalReady => s.outFd == -1 && !s.started && s.readyFd > 0
  }

  ghost function Step(s: State, e: Event): Result
    requires Enabled(s, e)
  {
    match e
    case Recv(pkt, open, dec) => TaskRecv(s, pkt, open, dec)
    case Timeout(open, dec) => Running(StartWrite(s.(writeOk := true), open, dec))
    case Writable(n, open, dec) => Running(TaskWrite(s, n, open, dec))
    case SignalReady => Running(s.(readyFd := -1))
  }

  /** The loop over a list of events; it ends when all nSegments files are written. */
  ghost function Exec(nSegments: int, s: State, es: seq<Event>): Result {
    if |es| == 0 then Running(s)
    else match Exec(nSegments, s, es[..|es| - 1])
      case Running(t) =>
        if t.min != nSegments && Enabled(t, es[|es| - 1]) then Step(t, es[|es| - 1]) else Impossible
      case r => r
  }
}
