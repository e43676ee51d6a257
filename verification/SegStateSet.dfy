/** The sliding window of files being received: a circular array of segment states that
    stands for a partial map from file numbers to segments. */
module SegStateSets {
  import opened Bytes
  import opened ParamDeriv
  import opened ProbeTable
  import opened SymbolStore
  import opened Segments
  import opened SegStates
  import opened Receiver

  datatype Status = Ok | Uninitialized | BelowMin | AboveMax

  /** The array slot of file f when the window starts at file min in slot first. */
  function SlotOf(min: int, first: nat, f: int): (i: nat)
    ensures i < SEGSTATE_SET_N
  {
    (f - min + first) % SEGSTATE_SET_N
  }

  /** The file that slot i belongs to. */
  function FileAt(min: int, first: nat, i: nat): (f: int)
    requires first < SEGSTATE_SET_N && i < SEGSTATE_SET_N
    ensures min <= f < min + SEGSTATE_SET_N
  {
    if i >= first then min + i - first else min + i - first + SEGSTATE_SET_N
  }

  /** Files of the window and slots of the array correspond one to one. */
  lemma SlotsAndFiles(min: int, first: nat, i: nat, f: int)
    requires first < SEGSTATE_SET_N && i < SEGSTATE_SET_N && min <= f < min + SEGSTATE_SET_N
    ensures SlotOf(min, first, f) == i <==> FileAt(min, first, i) == f
  {
  }

  /** A file that stays in the window keeps its slot when the window advances. */
  lemma SlotStays(min: int, first: nat, f: int)
    requires first < SEGSTATE_SET_N && min < f < min + SEGSTATE_SET_N
    ensures SlotOf(min + 1, (first + 1) % SEGSTATE_SET_N, f) == SlotOf(min, first, f)
  {
  }

  class SegStateSet {
    var minFileNbr: int
    var firstIndexInArray: nat
    const statesInitialized: array<bool>
    const states: seq<SegState>

    /** The window this array stands for, and the memory of each slot. */
    ghost var segs: map<int, Segment>
    ghost var reprs: seq<set<object>>

    ghost function Repr(): set<object>
      reads this
    {
      {this, statesInitialized} + All(reprs)
    }

    ghost predicate Sized()
      reads this
    {
      |states| == statesInitialized.Length == |reprs| == SEGSTATE_SET_N && firstIndexInArray < SEGSTATE_SET_N
    }

    ghost predicate Disjoint()
      reads this
    {
      Separate(reprs) && this !in All(reprs) && statesInitialized !in All(reprs)
    }

    ghost predicate Bounded()
      reads this
    {
      forall f :: f in segs ==> minFileNbr <= f < minFileNbr + SEGSTATE_SET_N
    }

    /** Each slot uses its own memory. */
    ghost predicate Placed()
      reads this, states
    {
      && Sized() && Disjoint()
      && forall i :: 0 <= i < SEGSTATE_SET_N ==> states[i] in reprs[i] && states[i].Repr() <= reprs[i]
    }

    /** Slot i and its file agree with the window. */
    ghost predicate SlotValid(i: nat)
      requires Sized() && i < SEGSTATE_SET_N
      reads this, statesInitialized, states[i], states[i].Repr()
    {
      var f := FileAt(minFileNbr, firstIndexInArray, i);
      && states[i].Apart()
      && (statesInitialized[i] <==> f in segs)
      && (statesInitialized[i] ==> states[i].Valid() && states[i].fileNbr == f && states[i].Seg() == segs[f])
    }

    ghost predicate Valid()
      reads states, Repr()
    {
      && Placed() && Bounded()
      && forall i :: 0 <= i < SEGSTATE_SET_N ==> SlotValid(i)
    }

    /** A slot whose memory did not change still stands for the same segment. */
    twostate lemma SlotKept(i: nat)
      requires i < |states| && old(states[i].Apart())
      requires forall o :: o in old(states[i].Repr()) ==> unchanged(o)
      requires states[i] in old(states[i].Repr())
      ensures states[i].Repr() == old(states[i].Repr()) && states[i].Apart()
      ensures old(states[i].Valid()) ==>
                states[i].Valid() && states[i].fileNbr == old(states[i].fileNbr) && states[i].Seg() == old(states[i].Seg())
    {
    }

    constructor (min: int)
      ensures Valid() && fresh(Repr())
      ensures minFileNbr == min && segs == map[]
    {
      hide SegState.Valid, SegState.Seg, SegState.Apart, SegState.Repr, Separate, All;
      minFileNbr := min;
      firstIndexInArray := 0;
      var flags := new bool[] [false, false, false, false];
      statesInitialized := flags;
      var s0 := new SegState();
      var s1 := new SegState();
      var s2 := new SegState();
      var s3 := new SegState();
      states := [s0, s1, s2, s3];
      segs := map[];
      reprs := [{s0}, {s1}, {s2}, {s3}];
      new;
      FourSlots(s0, s1, s2, s3);
      assert Repr() == {this, statesInitialized, s0, s1, s2, s3};
      EmptyWindow();
    }

    lemma EmptyWindow()
      requires Placed() && segs == map[]
      requires forall i :: 0 <= i < SEGSTATE_SET_N ==> !statesInitialized[i] && states[i].Apart()
      ensures Valid()
    {
      hide SegState.Valid, SegState.Seg, SegState.Apart, SegState.Repr, Separate, All;
    }

    /** Drop the head of the window; its slot may have been released already. */
    method IncMinFileNbr()
      requires Placed() && SettledBut(firstIndexInArray) && states[firstIndexInArray].Apart()
      requires Bounded()
      modifies `minFileNbr, `firstIndexInArray, `segs, statesInitialized
      ensures Valid()
      ensures minFileNbr == old(minFileNbr) + 1
      ensures segs == old(segs) - {old(minFileNbr)}
    {
      hide SegState.Valid, SegState.Apart, SegState.Seg, SegState.Repr;
      ghost var first := firstIndexInArray;
      statesInitialized[firstIndexInArray] := false;
      firstIndexInArray := firstIndexInArray + 1;
      if firstIndexInArray == SEGSTATE_SET_N {
        firstIndexInArray := 0;
      }
      segs := segs - {minFileNbr};
      minFileNbr := minFileNbr + 1;
      SlotKept(first);
      forall i | 0 <= i < SEGSTATE_SET_N
        ensures SlotValid(i)
      {
        if i != first {
          assert old(SlotValid(i));
          SlotKept(i);
        }
      }
    }

    /** The status of a file and, if it is in the window, its slot. */
    function GetInternalIndex(f: int): (r: (Status, nat))
      requires Sized()
      reads this, statesInitialized
      ensures r.0.BelowMin? <==> f < minFileNbr
      ensures r.0.AboveMax? <==> f >= minFileNbr + SEGSTATE_SET_N
      ensures r.1 < SEGSTATE_SET_N
    {
      if f < minFileNbr then (BelowMin, 0)
      else if f >= minFileNbr + SEGSTATE_SET_N then (AboveMax, 0)
      else
        var idx := (f - minFileNbr + firstIndexInArray) % SEGSTATE_SET_N;
        (if statesInitialized[idx] then Ok else Uninitialized, idx)
    }

    /** A file is found exactly when the window has it, with its segment. */
    function Get(f: int): (r: (Status, SegState?))
      requires Valid()
      reads states, Repr()
      ensures r.0.BelowMin? <==> f < minFileNbr
      ensures r.0.AboveMax? <==> f >= minFileNbr + SEGSTATE_SET_N
      ensures r.0.Ok? <==> f in segs
      ensures r.0.BelowMin? || r.0.AboveMax? <==> r.1 == null
      ensures r.0.Ok? ==> r.1.Valid() && r.1.fileNbr == f && r.1.Seg() == segs[f]
    {
      var (status, idx) := GetInternalIndex(f);
      if status.Ok? || status.Uninitialized? then
        SlotsAndFiles(minFileNbr, firstIndexInArray, idx, f);
        assert SlotValid(idx);
        (status, states[idx])
      else (status, null)
    }

    /** All segments below file limit that are receiving become ready to be written. */
    method MarkReadyToWrite(limit: int)
      requires Valid()
      modifies Repr()
      ensures Valid() && Repr() == old(Repr()) && minFileNbr == old(minFileNbr)
      ensures segs == MarkReady(old(segs), limit)
    {
      hide SegState.Valid, SegState.Apart, SegState.Repr, SegState.Seg;
      var i := 0;
      while i < SEGSTATE_SET_N
        invariant 0 <= i <= SEGSTATE_SET_N
        invariant Valid() && Repr() == old(Repr())
        invariant minFileNbr == old(minFileNbr) && firstIndexInArray == old(firstIndexInArray)
        invariant segs.Keys == old(segs).Keys
        invariant forall f :: f in segs ==>
                    segs[f] == if SlotOf(minFileNbr, firstIndexInArray, f) < i then ReadyBelow(old(segs)[f], limit)
                               else old(segs)[f]
      {
        MarkSlot(i, limit);
        i := i + 1;
      }
      assert forall f :: f in segs ==> SlotOf(minFileNbr, firstIndexInArray, f) < i;
      forall f | f in segs
        ensures segs[f] == MarkReady(old(segs), limit)[f]
      {
      }
    }

    /** One round of that loop. */
    method MarkSlot(i: nat, limit: int)
      requires Valid() && i < SEGSTATE_SET_N
      modifies `segs, `reprs, states[i]
      ensures Valid() && Repr() == old(Repr())
      ensures segs == map f | f in old(segs) ::
                if SlotOf(minFileNbr, firstIndexInArray, f) == i then ReadyBelow(old(segs)[f], limit) else old(segs)[f]
    {
      hide SegState.Valid, SegState.Apart, SegState.Repr, SegState.Seg;
      assert SlotValid(i);
      states[i].SegFields();
      forall f | f in segs
        ensures SlotOf(minFileNbr, firstIndexInArray, f) == i <==> FileAt(minFileNbr, firstIndexInArray, i) == f
      {
        SlotsAndFiles(minFileNbr, firstIndexInArray, i, f);
      }
      if statesInitialized[i] && states[i].mode == Receiving && states[i].fileNbr < limit {
        states[i].ReadyForWrite();
        states[i].SegFields();
        OthersKept(i);
        ghost var g := FileAt(minFileNbr, firstIndexInArray, i);
        assert old(segs)[g] == old(states[i].Seg());
        assert states[i].Seg() == ReadyBelow(segs[g], limit);
        assert reprs[i] + states[i].Repr() == reprs[i];
        Absorb(i, g);
      }
    }

    // ----- operations on the segment of one slot

    /** All slots but i agree with the window. */
    ghost predicate SettledBut(i: nat)
      reads states, Repr()
    {
      && Sized()
      && (forall k :: 0 <= k < SEGSTATE_SET_N && k != i ==> states[k] in reprs[k] && states[k].Repr() <= reprs[k])
      && (forall k :: 0 <= k < SEGSTATE_SET_N && k != i ==> SlotValid(k))
    }

    /** What happened in the memory of slot i leaves the others as they were. */
    twostate lemma OthersKept(i: nat)
      requires old(Valid()) && unchanged(this) && unchanged(statesInitialized) && i < SEGSTATE_SET_N
      requires forall o :: o in old(All(reprs)) && o !in old(reprs[i]) ==> unchanged(o)
      ensures SettledBut(i)
    {
      hide SegState.Valid, SegState.Apart, SegState.Repr, SegState.Seg;
      forall k | 0 <= k < SEGSTATE_SET_N && k != i
        ensures states[k] in reprs[k] && states[k].Repr() <= reprs[k] && SlotValid(k)
      {
        assert old(SlotValid(k));
        SlotKept(k);
      }
    }

    /** Slot i uses its own memory and possibly memory outside the array. */
    ghost predicate OwnMemory(i: nat)
      requires i < |states| && i < |reprs|
      reads this, states[i]
    {
      states[i].Repr() !! Repr() - reprs[i]
    }

    /** The window takes over what slot i now holds for its file f. */
    ghost method Absorb(i: nat, f: int)
      requires SettledBut(i) && i < SEGSTATE_SET_N && f == FileAt(minFileNbr, firstIndexInArray, i)
      requires Disjoint() && Bounded()
      requires statesInitialized[i] && states[i].Valid() && states[i].fileNbr == f
      requires states[i] in reprs[i] && OwnMemory(i)
      modifies `segs, `reprs
      ensures Valid()
      ensures segs == old(segs)[f := old(states[i].Seg())]
      ensures reprs == old(reprs)[i := old(reprs)[i] + old(states[i].Repr())]
    {
      hide SegState.Valid, SegState.Apart, SegState.Repr, SegState.Seg;
      segs := segs[f := states[i].Seg()];
      SeparateGrows(reprs, i, states[i].Repr());
      reprs := reprs[i := reprs[i] + states[i].Repr()];
      SlotKept(i);
      forall k | 0 <= k < SEGSTATE_SET_N
        ensures states[k] in reprs[k] && states[k].Repr() <= reprs[k] && SlotValid(k)
      {
        if k != i {
          assert old(SlotValid(k));
          SlotKept(k);
          SlotsAndFiles(minFileNbr, firstIndexInArray, k, f);
          SlotsAndFiles(minFileNbr, firstIndexInArray, i, f);
        }
      }
    }

    /** segstate_init on the slot of a new file, and mark_initialized if it succeeds. */
    method SetUp(f: int, tos: UInt32) returns (ok: bool)
      requires Valid() && Get(f).0.Uninitialized?
      modifies Repr()
      ensures Valid() && minFileNbr == old(minFileNbr) && fresh(Repr() - old(Repr()))
      ensures ok <==> DeriveParams(Int32(tos)).Some?
      ensures segs == if ok then old(segs)[f := NewSegment(f, tos, DeriveParams(Int32(tos)).value)] else old(segs)
    {
      hide SegState.Valid, SegState.Apart, SegState.Repr, SegState.Seg;
      hide DeriveParams, NewSegment, Segment.Valid;
      var (_, idx) := GetInternalIndex(f);
      SlotsAndFiles(minFileNbr, firstIndexInArray, idx, f);
      assert SlotValid(idx);
      ok := states[idx].Init(f, tos);
      OthersKept(idx);
      if ok {
        assert states[idx].Repr() - {states[idx]} !! Repr();
        var _ := MarkInitialized(f);
      } else {
        SlotKept(idx);
        assert SlotValid(idx);
      }
    }

    /** The slot of f, now set up for f, becomes part of the window. */
    method MarkInitialized(f: int) returns (status: Status)
      requires Sized() && !GetInternalIndex(f).0.Ok?
      requires Bounded() && Disjoint()
      requires !GetInternalIndex(f).0.Uninitialized? ==> Valid()
      requires GetInternalIndex(f).0.Uninitialized? ==>
                 var i := GetInternalIndex(f).1;
                 && SettledBut(i) && states[i].Valid() && states[i].fileNbr == f
                 && states[i] in reprs[i] && OwnMemory(i)
      modifies statesInitialized, `segs, `reprs
      ensures Valid()
      ensures status == (if old(GetInternalIndex(f).0).Uninitialized? then Ok else old(GetInternalIndex(f).0))
      ensures segs == if status.Ok? then old(segs)[f := old(states[GetInternalIndex(f).1].Seg())] else old(segs)
      ensures Repr() == old(Repr()) || (status.Ok? && Repr() == old(Repr() + states[GetInternalIndex(f).1].Repr()))
    {
      hide SegState.Valid, SegState.Apart, SegState.Repr, SegState.Seg;
      var (st, idx) := GetInternalIndex(f);
      status := st;
      if status.BelowMin? || status.AboveMax? {
        return;
      }
      SlotsAndFiles(minFileNbr, firstIndexInArray, idx, f);
      statesInitialized[idx] := true;
      status := Ok;
      SlotKept(idx);
      forall k | 0 <= k < SEGSTATE_SET_N && k != idx
        ensures states[k] in reprs[k] && states[k].Repr() <= reprs[k] && SlotValid(k)
      {
        assert old(SlotValid(k));
        SlotKept(k);
      }
      SeparateGrows(reprs, idx, states[idx].Repr());
      Absorb(idx, f);
    }

    method PrepareHead(fd: int, dec: Decoder)
      requires Valid() && minFileNbr in segs && segs[minFileNbr].outFd == -1 && fd != -1
      modifies Repr()
      ensures Valid() && minFileNbr == old(minFileNbr) && fresh(Repr() - old(Repr()))
      ensures segs == old(segs)[minFileNbr := old(segs)[minFileNbr].PrepareOutput(fd, dec)]
    {
      hide SegState.Valid, SegState.Apart, SegState.Repr;
      HeadSlot();
      states[firstIndexInArray].PrepareOutput(fd, dec);
      OthersKept(firstIndexInArray);
      Absorb(firstIndexInArray, minFileNbr);
    }

    method WriteHead(n: int, dec: Decoder) returns (more: bool, written: seq<Byte>)
      requires Valid() && minFileNbr in segs && segs[minFileNbr].Valid() && segs[minFileNbr].mode == Writing
      requires segs[minFileNbr].outCb < segs[minFileNbr].P.nCb ==> n <= segs[minFileNbr].Room()
      modifies Repr()
      ensures Valid() && minFileNbr == old(minFileNbr) && fresh(Repr() - old(Repr()))
      ensures segs == old(segs)[minFileNbr := old(segs)[minFileNbr].WriteMore(n, dec).0]
      ensures more == old(segs)[minFileNbr].WriteMore(n, dec).1
      ensures written == old(segs)[minFileNbr].Written(n)
    {
      hide SegState.Valid, SegState.Apart, SegState.Repr;
      HeadSlot();
      more, written := states[firstIndexInArray].WriteMore(n, dec);
      OthersKept(firstIndexInArray);
      Absorb(firstIndexInArray, minFileNbr);
    }

    /** segstate_free on the head and segstateset_inc_min_file_nbr. */
    method DropHead()
      requires Valid() && minFileNbr in segs
      modifies Repr()
      ensures Valid() && fresh(Repr() - old(Repr()))
      ensures minFileNbr == old(minFileNbr) + 1
      ensures segs == old(segs) - {old(minFileNbr)}
    {
      hide SegState.Valid, SegState.Apart, SegState.Repr, SegState.Seg;
      HeadSlot();
      var i := firstIndexInArray;
      states[i].Free();
      OthersKept(i);
      IncMinFileNbr();
    }

    lemma SegValid(f: int)
      requires Valid() && f in segs
      ensures segs[f].Valid() && segs[f].fileNbr == f
    {
      var (_, idx) := GetInternalIndex(f);
      SlotsAndFiles(minFileNbr, firstIndexInArray, idx, f);
      assert SlotValid(idx);
    }

    lemma HeadSlot()
      requires Valid() && minFileNbr in segs
      ensures FileAt(minFileNbr, firstIndexInArray, firstIndexInArray) == minFileNbr
      ensures SlotValid(firstIndexInArray) && statesInitialized[firstIndexInArray]
      ensures states[firstIndexInArray].Valid() && states[firstIndexInArray].Seg() == segs[minFileNbr]
    {
      assert SlotValid(firstIndexInArray);
    }

    method AddPacket(f: int, pkt: Packet)
      requires Valid() && f in segs && segs[f].Accepts(pkt)
      requires SymbolId(segs[f].P, pkt.header) * H_MULT < 0x8000_0000
      modifies Repr()
      ensures Valid() && minFileNbr == old(minFileNbr) && fresh(Repr() - old(Repr()))
      ensures segs == old(segs)[f := old(segs)[f].AddPacket(pkt)]
    {
      hide SegState.Valid, SegState.Apart, SegState.Repr;
      var (_, idx) := GetInternalIndex(f);
      SlotsAndFiles(minFileNbr, firstIndexInArray, idx, f);
      assert SlotValid(idx);
      states[idx].AddPacket(pkt);
      OthersKept(idx);
      Absorb(idx, f);
    }
  }

  ghost function All(reprs: seq<set<object>>): set<object> {
    if |reprs| == SEGSTATE_SET_N then reprs[0] + reprs[1] + reprs[2] + reprs[3] else {}
  }

  lemma FourSlots(a: object, b: object, c: object, d: object)
    requires a != b && a != c && a != d && b != c && b != d && c != d
    ensures Separate([{a}, {b}, {c}, {d}]) && All([{a}, {b}, {c}, {d}]) == {a, b, c, d}
  {
  }

  lemma SeparateGrows(reprs: seq<set<object>>, i: nat, more: set<object>)
    requires |reprs| == SEGSTATE_SET_N && i < |reprs| && Separate(reprs)
    requires more !! All(reprs) - reprs[i]
    ensures Separate(reprs[i := reprs[i] + more])
    ensures All(reprs[i := reprs[i] + more]) == All(reprs) + more
  {
  }

  ghost predicate Separate(reprs: seq<set<object>>) {
    forall i, j :: 0 <= i < j < |reprs| ==> reprs[i] !! reprs[j]
  }

  ghost function ReadyBelow(seg: Segment, limit: int): Segment {
    if seg.mode == Receiving && seg.fileNbr < limit then seg.(mode := ReadyToWrite) else seg
  }
}
