/** What one code block keeps of the symbols that reach it, and what it gives back:
    a capacity-bounded map from symbol id to zero-padded symbol, in order of arrival. */
module SymbolStore {
  import opened Bytes
  import opened ProbeTable

  const EXTRA := 30

  datatype Entry = Entry(id: nat, sym: Symbol)

  function Ids(entries: seq<Entry>): (ids: seq<nat>)
    ensures |ids| == |entries|
    ensures forall i :: 0 <= i < |ids| ==> ids[i] == entries[i].id
  {
    seq(|entries|, i requires 0 <= i < |entries| => entries[i].id)
  }

  // ----- the codec, known only by its outcomes

  /** What the codec library answers when asked to decode. The first error stops it:
      before any output was written, or while writing it. */
  datatype Decoding =
    | Decoded(data: seq<Byte>)
    | InsufficientIds
    | FailedEarly
    | FailedWriting(partial: seq<Byte>)

  ghost predicate FillsBlock(d: Decoding, size: nat) {
    match d
    case Decoded(data) => |data| == size
    case FailedWriting(partial) => |partial| == size
    case _ => true
  }

  /** A codec call for K, T and the stored entries writes K * T bytes. */
  type Decoder = f: (nat, nat, seq<Entry>) -> Decoding
    | forall k: nat, t: nat, es: seq<Entry> :: FillsBlock(f(k, t, es), Span(k, t))
    witness (_, _, _) => InsufficientIds

  /** The encoded symbol with a given id, of a given source block. */
  type Encoder = (seq<Symbol>, nat) -> Symbol

  ghost predicate Systematic(enc: Encoder, t: nat) {
    forall src, i: nat :: Uniform(src, t) ==>
      |enc(src, i)| == t && (i < |src| ==> enc(src, i) == src[i])
  }

  /** The entries are encoded symbols of src. */
  ghost predicate Consistent(entries: seq<Entry>, enc: Encoder, src: seq<Symbol>) {
    forall i :: 0 <= i < |entries| ==> entries[i].sym == enc(src, entries[i].id)
  }

  /** When decoding distinct, consistent symbols succeeds it yields their source block. */
  ghost predicate Sound(dec: Decoder, enc: Encoder) {
    forall src: seq<Symbol>, t: nat, es: seq<Entry> :: Uniform(src, t) && Distinct(Ids(es)) && Consistent(es, enc, src) ==>
      dec(|src|, t, es).Decoded? ==> dec(|src|, t, es).data == Join(src)
  }

  // ----- the store

  datatype Store = Store(K: nat, T: nat, entries: seq<Entry>) {
    ghost predicate Valid() {
      && 0 < K && 0 < T
      && |entries| <= K + EXTRA
      && Distinct(Ids(entries))
      && forall i :: 0 <= i < |entries| ==> |entries[i].sym| == T
    }

    predicate Has(id: nat) {
      id in Ids(entries)
    }

    ghost function SourceIds(): (s: set<nat>)
    {
      set i | 0 <= i < K && Has(i)
    }

    /** A full store ignores the symbol; a stored id keeps its first symbol. */
    function Add(id: nat, payload: seq<Byte>): Store
      requires |payload| <= T
    {
      if |entries| >= K + EXTRA || Has(id) then this
      else this.(entries := entries + [Entry(id, Pad(payload, T))])
    }

    /** Block i of the direct copy: the stored source symbol, or zeros. */
    function SourceOrZero(i: nat): Symbol {
      if Has(i) then SymbolOf(i) else Zeros(T)
    }

    function SymbolOf(id: nat): Symbol
      requires Has(id)
    {
      var k := IndexOf(Ids(entries), id);
      entries[k].sym
    }

    function CopyOut(): seq<Byte> {
      Join(seq(K, i requires i >= 0 => SourceOrZero(i)))
    }

    ghost function GetData(dec: Decoder): (seq<Byte>, bool) {
      if |SourceIds()| >= K || |entries| < K then (CopyOut(), |SourceIds()| >= K)
      else match dec(K, T, entries)
        case Decoded(data) => (data, true)
        case InsufficientIds => (CopyOut(), false)
        case FailedEarly => (Zeros(Span(K, T)), false)
        case FailedWriting(partial) => (partial, false)
    }
  }

  function IndexOf(ids: seq<nat>, id: nat): (k: nat)
    requires id in ids
    ensures k < |ids| && ids[k] == id
  {
    if ids[|ids| - 1] == id then |ids| - 1
    else
      assert ids == ids[..|ids| - 1] + [ids[|ids| - 1]];
      IndexOf(ids[..|ids| - 1], id)
  }

  lemma AddKeepsValid(st: Store, id: nat, payload: seq<Byte>)
    requires st.Valid() && |payload| <= st.T
    ensures st.Add(id, payload).Valid()
  {
  }

  // ----- counting source ids

  /** The number of stored source ids is at most K, and K exactly when all are stored. */
  lemma SourceCount(st: Store)
    ensures |st.SourceIds()| <= st.K
    ensures |st.SourceIds()| == st.K <==> forall i :: 0 <= i < st.K ==> st.Has(i)
  {
    BoundedSetSize(st.SourceIds(), st.K);
    if forall i :: 0 <= i < st.K ==> st.Has(i) {
      assert forall x: nat :: x < st.K ==> x in st.SourceIds();
    }
    if |st.SourceIds()| == st.K {
      forall i | 0 <= i < st.K
        ensures st.Has(i)
      {
        assert i in st.SourceIds();
      }
    }
  }

  /** Adding a symbol raises the count by one exactly when it is a new source id. */
  lemma SourceCountStep(st: Store, id: nat, payload: seq<Byte>)
    requires |payload| <= st.T
    ensures |st.Add(id, payload).SourceIds()| ==
            |st.SourceIds()| + (if id < st.K && st.Add(id, payload) != st then 1 else 0)
  {
    var st' := st.Add(id, payload);
    if st' != st {
      assert Ids(st'.entries) == Ids(st.entries) + [id];
      assert forall i: nat :: st'.Has(i) <==> st.Has(i) || i == id;
      if id < st.K {
        assert st'.SourceIds() == st.SourceIds() + {id};
      } else {
        assert st'.SourceIds() == st.SourceIds();
      }
    }
  }

  // ----- what comes back

  function CopyBlocks(st: Store): (b: seq<Symbol>)
    ensures |b| == st.K
  {
    seq(st.K, i requires i >= 0 => st.SourceOrZero(i))
  }

  lemma CopyUniform(st: Store)
    requires st.Valid()
    ensures Uniform(CopyBlocks(st), st.T)
    ensures st.CopyOut() == Join(CopyBlocks(st))
    ensures |st.CopyOut()| == Span(st.K, st.T)
  {
    assert CopyBlocks(st) == seq(st.K, i requires i >= 0 => st.SourceOrZero(i));
    JoinLength(CopyBlocks(st), st.T);
  }

  lemma GetDataSize(st: Store, dec: Decoder)
    requires st.Valid()
    ensures |st.GetData(dec).0| == Span(st.K, st.T)
  {
    CopyUniform(st);
    assert FillsBlock(dec(st.K, st.T, st.entries), Span(st.K, st.T));
  }

  /** When too few symbols came or the codec had too few ids, block i of the output is
      source symbol i as stored, and zeros if it was not. */
  lemma DegradedOutput(st: Store, dec: Decoder, i: nat)
    requires st.Valid() && i < st.K
    requires |st.entries| < st.K || dec(st.K, st.T, st.entries).InsufficientIds?
    ensures |st.GetData(dec).0| == Span(st.K, st.T) && Span(i, st.T) + st.T <= Span(st.K, st.T)
    ensures st.GetData(dec).0[Span(i, st.T)..Span(i, st.T) + st.T] ==
            if st.Has(i) then st.SymbolOf(i) else Zeros(st.T)
    ensures st.GetData(dec).1 <==> AllSourceIn(st)
  {
    CopyUniform(st);
    JoinWindow(CopyBlocks(st), st.T, i);
    SourceCount(st);
  }

  /** The codec is asked, having at least K symbols, and answers with a block. */
  ghost predicate Decodes(st: Store, dec: Decoder) {
    |st.entries| >= st.K && dec(st.K, st.T, st.entries).Decoded?
  }

  ghost predicate AllSourceIn(st: Store) {
    forall i :: 0 <= i < st.K ==> st.Has(i)
  }

  /** A codec failure before any output leaves zeros, one while writing what it wrote. */
  lemma FailureOutput(st: Store, dec: Decoder)
    requires st.Valid() && !AllSourceIn(st) && |st.entries| >= st.K
    ensures dec(st.K, st.T, st.entries).FailedEarly? ==> st.GetData(dec) == (Zeros(Span(st.K, st.T)), false)
    ensures dec(st.K, st.T, st.entries).FailedWriting? ==>
              st.GetData(dec) == (dec(st.K, st.T, st.entries).partial, false)
  {
    SourceCount(st);
  }

  /** The store reports success exactly when all source symbols are there or the codec
      succeeds on at least K symbols; and then the output is the source block: by the
      counting argument in the copy branch, by the codec contract in the decode branch. */
  lemma SuccessIsComplete(st: Store, dec: Decoder, enc: Encoder, src: seq<Symbol>)
    requires st.Valid() && |src| == st.K && Uniform(src, st.T)
    requires Systematic(enc, st.T) && Sound(dec, enc)
    requires Consistent(st.entries, enc, src)
    ensures st.GetData(dec).1 <==> AllSourceIn(st) || Decodes(st, dec)
    ensures AllSourceIn(st) || Decodes(st, dec) ==> st.GetData(dec) == (Join(src), true)
  {
    SourceCount(st);
    if forall i :: 0 <= i < st.K ==> st.Has(i) {
      CopyComplete(st, enc, src);
    }
  }

  lemma CopyComplete(st: Store, enc: Encoder, src: seq<Symbol>)
    requires st.Valid() && |src| == st.K && Uniform(src, st.T)
    requires Systematic(enc, st.T) && Consistent(st.entries, enc, src)
    requires forall i :: 0 <= i < st.K ==> st.Has(i)
    ensures st.CopyOut() == Join(src)
  {
    forall i | 0 <= i < st.K
      ensures CopyBlocks(st)[i] == src[i]
    {
      assert st.Has(i);
      var k := IndexOf(Ids(st.entries), i);
      assert st.entries[k].sym == enc(src, i);
    }
    assert CopyBlocks(st) == src;
    CopyUniform(st);
  }

  /** One more entry with a new id decides the block of that id and no other. */
  lemma ExtendCopy(k: nat, t: nat, entries: seq<Entry>, e: Entry, i: nat)
    requires e.id !in Ids(entries)
    ensures Store(k, t, entries + [e]).SourceOrZero(i) ==
            if i == e.id then e.sym else Store(k, t, entries).SourceOrZero(i)
  {
    var ids, ids' := Ids(entries), Ids(entries + [e]);
    assert ids' == ids + [e.id];
    assert ids'[|ids|] == e.id;
    if i in ids && i != e.id {
      assert ids'[..|ids'| - 1] == ids;
    }
  }

  /** The windows of buf hold the blocks of the copy of these entries. */
  ghost predicate CopyOf(buf: seq<Byte>, k: nat, t: nat, entries: seq<Entry>) {
    forall j: nat :: j < k ==> Window(buf, j, t) == Store(k, t, entries).SourceOrZero(j)
  }

  /** A buffer whose windows are the blocks of the copy starts with the copy. */
  lemma WindowsAreCopy(k: nat, t: nat, entries: seq<Entry>, n: nat, buf: seq<Byte>)
    requires Store(k, t, entries).Valid() && Span(k, t) <= |buf|
    requires n == |entries| && CopyOf(buf, k, t, entries[..n])
    ensures buf[..Span(k, t)] == Store(k, t, entries).CopyOut()
  {
    assert entries[..n] == entries;
    var st := Store(k, t, entries);
    var b := buf[..Span(k, t)];
    forall i | 0 <= i < k
      ensures Cut(b, k, t)[i] == CopyBlocks(st)[i]
    {
      WindowFits(i, t, k);
      assert Window(b, i, t) == Window(buf, i, t);
    }
    assert Cut(b, k, t) == CopyBlocks(st);
    JoinCut(b, k, t);
    CopyUniform(st);
  }

  // ----- whole runs of arrivals

  datatype Arrival = Arrival(id: nat, payload: seq<Byte>)

  ghost predicate Fit(arrivals: seq<Arrival>, t: nat) {
    forall i :: 0 <= i < |arrivals| ==> |arrivals[i].payload| <= t
  }

  function ArrivalIds(arrivals: seq<Arrival>): (ids: seq<nat>)
    ensures |ids| == |arrivals|
  {
    seq(|arrivals|, i requires 0 <= i < |arrivals| => arrivals[i].id)
  }

  /** The store after all the arrivals. */
  ghost function Collect(k: nat, t: nat, arrivals: seq<Arrival>): (st: Store)
    requires Fit(arrivals, t)
    ensures st.K == k && st.T == t
  {
    if |arrivals| == 0 then Store(k, t, [])
    else
      var a := arrivals[|arrivals| - 1];
      Collect(k, t, arrivals[..|arrivals| - 1]).Add(a.id, a.payload)
  }

  /** The store keeps exactly the first K + 30 distinct ids, in order of arrival. */
  lemma {:induction false} CollectKeepsFirst(k: nat, t: nat, arrivals: seq<Arrival>)
    requires Fit(arrivals, t)
    ensures var ids := Firsts(ArrivalIds(arrivals));
            Ids(Collect(k, t, arrivals).entries) == ids[..Min(|ids|, k + 30)]
  {
    if |arrivals| > 0 {
      var front := arrivals[..|arrivals| - 1];
      CollectKeepsFirst(k, t, front);
      assert ArrivalIds(arrivals)[..|arrivals| - 1] == ArrivalIds(front);
      var f := Firsts(ArrivalIds(front));
      if |f| < k + EXTRA {
        assert f[..|f|] == f;
      }
    }
  }

  /** The position of the first arrival with an id. */
  function FirstAt(arrivals: seq<Arrival>, id: nat): (i: nat)
    requires id in ArrivalIds(arrivals)
    ensures i < |arrivals| && arrivals[i].id == id
    ensures forall j :: 0 <= j < i ==> arrivals[j].id != id
  {
    if arrivals[0].id == id then 0
    else
      assert ArrivalIds(arrivals)[1..] == ArrivalIds(arrivals[1..]);
      1 + FirstAt(arrivals[1..], id)
  }

  /** Of arrivals with the same id the first one's payload is kept, padded with zeros. */
  lemma {:induction false} CollectKeepsFirstPayload(k: nat, t: nat, arrivals: seq<Arrival>, id: nat)
    requires Fit(arrivals, t) && Collect(k, t, arrivals).Has(id)
    ensures id in ArrivalIds(arrivals)
    ensures Collect(k, t, arrivals).SymbolOf(id) == Pad(arrivals[FirstAt(arrivals, id)].payload, t)
  {
    var front, last := arrivals[..|arrivals| - 1], arrivals[|arrivals| - 1];
    var st := Collect(k, t, front);
    assert ArrivalIds(arrivals) == ArrivalIds(front) + [last.id];
    if st.Has(id) {
      CollectKeepsFirstPayload(k, t, front, id);
      FirstAtUnique(arrivals, id, FirstAt(front, id));
      if st.Add(last.id, last.payload) != st {
        ExtendCopy(k, t, st.entries, Entry(last.id, Pad(last.payload, t)), id);
      }
    } else {
      NotStoredNotSeen(k, t, front, id);
      assert forall j :: 0 <= j < |front| ==> ArrivalIds(front)[j] == arrivals[j].id;
      FirstAtUnique(arrivals, id, |front|);
      ExtendCopy(k, t, st.entries, Entry(last.id, Pad(last.payload, t)), id);
    }
  }

  lemma FirstAtUnique(arrivals: seq<Arrival>, id: nat, i: nat)
    requires i < |arrivals| && arrivals[i].id == id
    requires forall j :: 0 <= j < i ==> arrivals[j].id != id
    ensures id in ArrivalIds(arrivals) && FirstAt(arrivals, id) == i
  {
    assert ArrivalIds(arrivals)[i] == id;
  }

  /** While there is room, an id that is not stored has not arrived. */
  lemma NotStoredNotSeen(k: nat, t: nat, arrivals: seq<Arrival>, id: nat)
    requires Fit(arrivals, t) && |Collect(k, t, arrivals).entries| < k + 30
    requires !Collect(k, t, arrivals).Has(id)
    ensures id !in ArrivalIds(arrivals)
  {
    CollectKeepsFirst(k, t, arrivals);
    var ids := Firsts(ArrivalIds(arrivals));
    assert ids[..|ids|] == ids;
  }

  /** At least K symbols are kept exactly when K distinct ones arrived. */
  lemma EnoughKept(k: nat, t: nat, arrivals: seq<Arrival>)
    requires Fit(arrivals, t)
    ensures |Collect(k, t, arrivals).entries| >= k <==> |Firsts(ArrivalIds(arrivals))| >= k
  {
    CollectKeepsFirst(k, t, arrivals);
  }

  lemma {:induction false} CollectValid(k: nat, t: nat, arrivals: seq<Arrival>)
    requires k > 0 && t > 0 && Fit(arrivals, t)
    ensures Collect(k, t, arrivals).Valid()
  {
    if |arrivals| > 0 {
      CollectValid(k, t, arrivals[..|arrivals| - 1]);
    }
  }

  /** Every arrival is an encoded symbol of src, possibly short of its trailing zeros. */
  ghost predicate Honest(arrivals: seq<Arrival>, t: nat, enc: Encoder, src: seq<Symbol>) {
    && Fit(arrivals, t)
    && forall i :: 0 <= i < |arrivals| ==>
         Pad(arrivals[i].payload, t) == enc(src, arrivals[i].id)
  }

  lemma {:induction false} CollectConsistent(k: nat, t: nat, arrivals: seq<Arrival>, enc: Encoder, src: seq<Symbol>)
    requires Honest(arrivals, t, enc, src)
    ensures Consistent(Collect(k, t, arrivals).entries, enc, src)
  {
    if |arrivals| > 0 {
      CollectConsistent(k, t, arrivals[..|arrivals| - 1], enc, src);
    }
  }

  /** The order of arrival does not matter to the direct copy while the distinct ids fit. */
  lemma {:induction false} OrderInsensitive(k: nat, t: nat, a: seq<Arrival>, b: seq<Arrival>, enc: Encoder, src: seq<Symbol>)
    requires k > 0 && t > 0
    requires Honest(a, t, enc, src) && Honest(b, t, enc, src)
    requires forall id :: id in ArrivalIds(a) <==> id in ArrivalIds(b)
    requires |Firsts(ArrivalIds(a))| <= k + 30
    ensures Collect(k, t, a).CopyOut() == Collect(k, t, b).CopyOut()
    ensures Collect(k, t, a).SourceIds() == Collect(k, t, b).SourceIds()
  {
    var sa, sb := Collect(k, t, a), Collect(k, t, b);
    CollectKeepsFirst(k, t, a);
    CollectKeepsFirst(k, t, b);
    CollectConsistent(k, t, a, enc, src);
    CollectConsistent(k, t, b, enc, src);
    SameSize(Firsts(ArrivalIds(a)), Firsts(ArrivalIds(b)));
    forall i: nat
      ensures sa.Has(i) <==> sb.Has(i)
      ensures sa.SourceOrZero(i) == sb.SourceOrZero(i)
    {
      assert Ids(sa.entries) == Firsts(ArrivalIds(a));
      assert Ids(sb.entries) == Firsts(ArrivalIds(b));
    }
    assert CopyBlocks(sa) == CopyBlocks(sb);
    CollectValid(k, t, a);
    CollectValid(k, t, b);
    CopyUniform(sa);
    CopyUniform(sb);
  }

  ghost function Elems(s: seq<nat>): set<nat> {
    set x | x in s
  }

  lemma {:induction false} DistinctSize(s: seq<nat>)
    requires Distinct(s)
    ensures |Elems(s)| == |s|
  {
    if |s| > 0 {
      var front, last := s[..|s| - 1], s[|s| - 1];
      DistinctSize(front);
      assert s == front + [last];
      assert Elems(s) == Elems(front) + {last};
      assert last !in front;
    }
  }

  lemma SameSize(s: seq<nat>, u: seq<nat>)
    requires Distinct(s) && Distinct(u)
    requires forall x :: x in s <==> x in u
    ensures |s| == |u|
  {
    DistinctSize(s);
    DistinctSize(u);
    assert Elems(s) == Elems(u);
  }

  // ----- when all the source symbols are kept

  ghost function RepairIds(ids: seq<nat>, k: nat): set<nat> {
    set x | x in ids && x >= k
  }

  ghost predicate AllSource(ids: seq<nat>, k: nat) {
    forall i :: 0 <= i < k ==> i in ids
  }

  /** All source ids are in the first p arrivals, with at most 30 distinct repair ids. */
  ghost predicate CompleteBy(ids: seq<nat>, k: nat, p: nat) {
    p <= |ids| && AllSource(ids[..p], k) && |RepairIds(ids[..p], k)| <= 30
  }

  ghost predicate CompleteIds(ids: seq<nat>, k: nat) {
    exists p :: CompleteBy(ids, k, p)
  }

  /** The store ends up with every source symbol exactly when they all arrived before
      more than 30 distinct repair symbols had. */
  lemma AllSourceKept(k: nat, t: nat, arrivals: seq<Arrival>)
    requires Fit(arrivals, t)
    ensures AllSourceIn(Collect(k, t, arrivals)) <==> CompleteIds(ArrivalIds(arrivals), k)
  {
    var ids := ArrivalIds(arrivals);
    CollectKeepsFirst(k, t, arrivals);
    if forall i :: 0 <= i < k ==> Collect(k, t, arrivals).Has(i) {
      forall i | 0 <= i < k
        ensures i in KeptOf(ids, k)
      {
        assert Collect(k, t, arrivals).Has(i);
      }
      var p := KeptPrefix(ids, k);
      assert CompleteBy(ids, k, p);
    }
    if p :| CompleteBy(ids, k, p) {
      PrefixKept(ids, k, p);
    }
  }

  ghost function KeptOf(ids: seq<nat>, k: nat): seq<nat> {
    Firsts(ids)[..Min(|Firsts(ids)|, k + EXTRA)]
  }

  lemma {:induction false} FirstsPrefix(ids: seq<nat>, p: nat)
    requires p <= |ids|
    ensures Firsts(ids[..p]) <= Firsts(ids)
  {
    if p == |ids| {
      assert ids[..p] == ids;
    } else {
      FirstsPrefix(ids[..|ids| - 1], p);
      assert ids[..|ids| - 1][..p] == ids[..p];
    }
  }

  /** Distinct ids that include 0..k are k source ids and the rest repair ids. */
  lemma SplitIds(ids: seq<nat>, k: nat)
    requires AllSource(ids, k)
    ensures |Firsts(ids)| == k + |RepairIds(ids, k)|
  {
    var f := Firsts(ids);
    DistinctSize(f);
    var lower := set x | x in ids && x < k;
    assert Elems(f) == lower + RepairIds(ids, k);
    assert lower !! RepairIds(ids, k);
    BoundedSetSize(lower, k);
  }

  lemma PrefixKept(ids: seq<nat>, k: nat, p: nat)
    requires CompleteBy(ids, k, p)
    ensures AllSource(KeptOf(ids, k), k)
  {
    var f, g := Firsts(ids[..p]), Firsts(ids);
    SplitIds(ids[..p], k);
    FirstsPrefix(ids, p);
    forall i | 0 <= i < k
      ensures i in KeptOf(ids, k)
    {
      assert i in f;
      var j :| 0 <= j < |f| && f[j] == i;
      assert KeptOf(ids, k)[j] == g[j];
    }
  }

  lemma {:induction false} KeptPrefix(ids: seq<nat>, k: nat) returns (p: nat)
    requires AllSource(KeptOf(ids, k), k)
    ensures CompleteBy(ids, k, p)
    decreases |ids|
  {
    if |Firsts(ids)| <= k + EXTRA {
      p := |ids|;
      assert ids[..p] == ids;
      assert KeptOf(ids, k) == Firsts(ids);
      SplitIds(ids, k);
    } else {
      var front := ids[..|ids| - 1];
      FirstsPrefix(ids, |ids| - 1);
      assert |Firsts(ids)| <= |Firsts(front)| + 1;
      assert KeptOf(front, k) == KeptOf(ids, k);
      p := KeptPrefix(front, k);
      assert front[..p] == ids[..p];
    }
  }
}
