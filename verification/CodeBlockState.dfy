/** The receiver's state of one code block: hash table, arrival-ordered id array, flat
    symbol buffer and counters, all kept in agreement with an abstract store. */
module CodeBlockStates {
  import opened Bytes
  import opened ProbeTable
  import opened SymbolStore

  class CodeBlockState {
    const K: nat
    const T: nat

    // ids received, in order of arrival
    const nEsiMax: nat
    var nEsi: nat
    const esi: array<int>

    // number of source symbols received
    var nSrcEsi: nat

    // hash table of the ids received
    const hashEsiSz: nat
    const hashEsi: array<int>

    // symbol data, in the order of esi
    const symsBuf: array<Byte>

    /** The abstract store this object implements. */
    ghost var store: Store

    ghost function Repr(): set<object> {
      {this, esi, hashEsi, symsBuf}
    }

    /** Ids, symbols and counters agree with the store. */
    ghost predicate Buffered()
      reads this, esi, symsBuf
    {
      && store.Valid() && store.K == K && store.T == T
      && nEsiMax == K + EXTRA && esi.Length == nEsiMax
      && symsBuf.Length == Span(nEsiMax, T)
      && nEsi == |store.entries|
      && nSrcEsi == |store.SourceIds()|
      && Ids(store.entries) == esi[..nEsi]
      && SymbolsAt(symsBuf[..], store.entries, T)
    }

    ghost predicate Valid()
      reads Repr()
    {
      && Buffered()
      && esi != hashEsi
      && hashEsiSz == TableSize(nEsiMax) && hashEsi.Length == hashEsiSz
      && Holds(hashEsi[..], Ids(store.entries))
      && hashEsi[..] == Fill(hashEsiSz, Ids(store.entries))
    }

    /** All ids stored so far are below the table size. */
    ghost predicate Low()
      reads this
    {
      forall i :: 0 <= i < |store.entries| ==> store.entries[i].id < hashEsiSz
    }

    /** Then the search for any such id ends at its first probe. */
    lemma LowStopsAtOnce(symId: nat)
      requires Valid() && Low() && symId < hashEsiSz
      ensures Stop(hashEsi[..], symId, 0) == 0
    {
      hide Holds, Fill, Buffered, Stop;
      PerfectOnWindow(hashEsiSz, Ids(store.entries), symId);
    }

    constructor (K: nat, T: nat)
      requires 0 < K && 0 < T
      ensures Valid() && fresh(Repr())
      ensures this.K == K && this.T == T
      ensures store == Store(K, T, [])
      ensures forall s :: 0 <= s < hashEsi.Length ==> hashEsi[s] == FREE
    {
      this.K := K;
      this.T := T;
      nEsiMax := K + EXTRA;
      nEsi := 0;
      var ids := new int[K + EXTRA];
      esi := ids;
      nSrcEsi := 0;
      var sz := TableSize(K + EXTRA);
      hashEsiSz := sz;
      var table := new int[sz];
      var i := 0;
      while i < sz
        invariant 0 <= i <= sz
        invariant forall s :: 0 <= s < i ==> table[s] == FREE
      {
        table[i] := FREE;
        i := i + 1;
      }
      EmptyHolds(table[..]);
      hashEsi := table;
      symsBuf := new Byte[Span(K + EXTRA, T)];
      store := Store(K, T, []);
      assert table[..] == Fill(sz, []);
      new;
      assert store.SourceIds() == {};
    }

    /** Store a symbol: nothing happens when the buffer is full or the id is known. The
        search passes over no slot while this id and all before are below the table size. */
    method AddSym(symId: nat, payload: seq<Byte>) returns (ghost passed: nat)
      requires Valid()
      requires |payload| <= T
      requires symId * H_MULT < 0x8000_0000
      modifies Repr()
      ensures Valid()
      ensures store == old(store).Add(symId, payload)
      ensures hashEsi[..] ==
              if store == old(store) then old(hashEsi[..]) else Insert(old(hashEsi[..]), symId)
      ensures passed == if old(nEsi) == nEsiMax then 0 else Stop(old(hashEsi[..]), symId, 0)
      ensures old(Low()) && symId < hashEsiSz ==> passed == 0 && Low()
    {
      hide Holds, Fill, Stop;
      passed := 0;
      if nEsi >= nEsiMax {
        return;
      }
      if Low() && symId < hashEsiSz {
        LowStopsAtOnce(symId);
      }
      ghost var table, ids := hashEsi[..], Ids(store.entries);
      var hent, known;
      hent, known, passed := Search(symId);
      if known {
        return;
      }
      hashEsi[hent] := symId;
      assert hashEsi[..] == Insert(table, symId);
      InsertKeeps(table, ids, symId);
      FillSnoc(hashEsiSz, ids, symId);
      AppendSymbol(symId, payload);
    }

    /** The probe loop: it ends at the id if that is known, and at a free slot otherwise. */
    method Search(symId: nat) returns (hent: nat, known: bool, ghost passed: nat)
      requires Valid() && symId * H_MULT < 0x8000_0000
      ensures passed == Stop(hashEsi[..], symId, 0) && passed < hashEsiSz
      ensures hent == Slot(Home(symId, hashEsiSz), passed, hashEsiSz)
      ensures known <==> store.Has(symId)
      ensures !known ==> hashEsi[hent] == FREE
    {
      hide Buffered, Holds, Fill;
      ghost var table := hashEsi[..];
      StopsInside(table, Ids(store.entries), symId);
      FindsExactlyStored(table, Ids(store.entries), symId);
      ghost var stop := Stop(table, symId, 0);
      hent, passed := Home(symId, hashEsiSz), 0;
      while hashEsi[hent] != FREE
        invariant 0 <= passed <= stop
        invariant hent == Slot(Home(symId, hashEsiSz), passed, hashEsiSz)
        decreases stop - passed
      {
        assert Probe(table, symId, passed) == hashEsi[hent];
        if hashEsi[hent] == symId {
          assert passed == stop;
          return hent, true, passed;
        }
        hent := hent + 1;
        if hent == hashEsiSz {
          hent := 0;
        }
        passed := passed + 1;
      }
      assert Probe(table, symId, passed) == FREE;
      assert passed == stop;
      known := false;
    }

    /** Record id and zero-padded symbol at the end of the arrays. */
    method AppendSymbol(symId: nat, payload: seq<Byte>)
      requires Buffered() && nEsi < nEsiMax
      requires |payload| <= T && !store.Has(symId)
      modifies this, esi, symsBuf
      ensures Buffered()
      ensures store == old(store).Add(symId, payload) && store != old(store)
      ensures Ids(store.entries) == old(Ids(store.entries)) + [symId]
    {
      esi[nEsi] := symId;
      var offs := Span(nEsi, T);
      WindowFits(nEsi, T, K + EXTRA);
      WritePadded(symsBuf, offs, payload, T);
      SymbolsExtend(old(symsBuf[..]), symsBuf[..], store.entries, Entry(symId, Pad(payload, T)), T);

      SourceCountStep(store, symId, payload);
      AddKeepsValid(store, symId, payload);
      nEsi := nEsi + 1;
      if symId < K {
        nSrcEsi := nSrcEsi + 1;
      }
      ghost var before := store;
      store := store.Add(symId, payload);
      assert Ids(store.entries) == Ids(before.entries) + [symId];
    }

    /** Copy the stored source symbols to their places in a zeroed output block. */
    method CopySourceSyms(dataOut: array<Byte>)
      requires Buffered() && dataOut != symsBuf
      requires dataOut.Length >= Span(K, T)
      requires forall j :: 0 <= j < Span(K, T) ==> dataOut[j] == 0
      modifies dataOut
      ensures dataOut[..Span(K, T)] == store.CopyOut()
      ensures dataOut[Span(K, T)..] == old(dataOut[Span(K, T)..])
    {
      ZeroWindows(dataOut[..], K, T, store.entries);
      var i := 0;
      while i < nEsi
        invariant 0 <= i <= nEsi && Buffered()
        invariant CopyOf(dataOut[..], K, T, store.entries[..i])
        invariant dataOut[Span(K, T)..] == old(dataOut[Span(K, T)..])
      {
        CopySymbol(i, dataOut);
        i := i + 1;
      }
      WindowsAreCopy(K, T, store.entries, nEsi, dataOut[..]);
    }

    /** One round of that loop: symbol i is copied if it is a source symbol. */
    method CopySymbol(i: nat, dataOut: array<Byte>)
      requires Buffered() && dataOut != symsBuf
      requires i < nEsi && dataOut.Length >= Span(K, T)
      requires CopyOf(dataOut[..], K, T, store.entries[..i])
      modifies dataOut
      ensures CopyOf(dataOut[..], K, T, store.entries[..i + 1])
      ensures dataOut[Span(K, T)..] == old(dataOut[Span(K, T)..])
    {
      ghost var es := store.entries;
      var id := esi[i];
      assert id == Ids(es)[i] == es[i].id >= 0;
      NextEntry(es, i);
      if id < K {
        PlaceSymbol(i, id, dataOut);
        TailOfTail(dataOut[..], old(dataOut[..]), Span(id, T) + T, Span(K, T));
      }
      hide Buffered;
      ExtendWindows(old(dataOut[..]), dataOut[..], K, T, es[..i], es[i]);
    }

    /** Symbol i of the flat buffer is copied to place id of the output. */
    method PlaceSymbol(i: nat, id: nat, dataOut: array<Byte>)
      requires Buffered() && dataOut != symsBuf
      requires i < nEsi && id < K && dataOut.Length >= Span(K, T)
      modifies dataOut
      ensures Span(id, T) + T <= Span(K, T)
      ensures Window(dataOut[..], id, T) == store.entries[i].sym
      ensures dataOut[..Span(id, T)] == old(dataOut[..Span(id, T)])
      ensures dataOut[Span(id, T) + T..] == old(dataOut[Span(id, T) + T..])
    {
      WindowFits(i, T, nEsiMax);
      WindowFits(id, T, K);
      assert Window(symsBuf[..], i, T) == store.entries[i].sym;
      CopyRun(symsBuf, Span(i, T), dataOut, Span(id, T), T);
    }

    /** Reassemble the source block into dataOut; dec is what the codec does if asked. */
    method GetData(dataOut: array<Byte>, dec: Decoder) returns (complete: bool)
      requires Valid() && dataOut !in Repr()
      requires dataOut.Length >= Span(K, T)
      modifies dataOut
      ensures (dataOut[..Span(K, T)], complete) == store.GetData(dec)
      ensures complete <==> AllSourceIn(store) || Decodes(store, dec)
      ensures dataOut[Span(K, T)..] == old(dataOut[Span(K, T)..])
    {
      hide Holds, Fill;
      SourceCount(store);
      forall j | 0 <= j < Span(K, T) {
        dataOut[j] := 0;
      }
      assert dataOut[Span(K, T)..] == old(dataOut[Span(K, T)..]);
      if nSrcEsi >= K || nEsi < K {
        CopySourceSyms(dataOut);
      } else {
        var entries := Entries();
        var result := dec(K, T, entries);
        assert FillsBlock(result, Span(K, T));
        match result {
          case InsufficientIds =>
            CopySourceSyms(dataOut);
            return false;
          case FailedEarly =>
            assert dataOut[..Span(K, T)] == Zeros(Span(K, T));
            return false;
          case FailedWriting(partial) =>
            WriteBlock(dataOut, partial);
            return false;
          case Decoded(data) =>
            WriteBlock(dataOut, data);
            return true;
        }
      }
      complete := nSrcEsi >= K;
    }

    /** What the codec is handed: the ids and the symbols of the flat buffer. */
    method Entries() returns (entries: seq<Entry>)
      requires Buffered()
      ensures entries == store.entries
    {
      entries := [];
      var i := 0;
      while i < nEsi
        invariant 0 <= i <= nEsi
        invariant entries == store.entries[..i]
      {
        WindowFits(i, T, nEsiMax);
        assert esi[i] == Ids(store.entries)[i] == store.entries[i].id >= 0;
        assert Window(symsBuf[..], i, T) == store.entries[i].sym;
        entries := entries + [Entry(esi[i], symsBuf[Span(i, T)..Span(i, T) + T])];
        i := i + 1;
      }
    }
  }

  /** memcpy of the payload and memset of the rest of the symbol. */
  method WritePadded(buf: array<Byte>, offs: nat, payload: seq<Byte>, t: nat)
    requires |payload| <= t && offs + t <= buf.Length
    modifies buf
    ensures buf[offs..offs + t] == Pad(payload, t)
    ensures buf[..offs] == old(buf[..offs])
    ensures buf[offs + t..] == old(buf[offs + t..])
  {
    forall i | 0 <= i < |payload| {
      buf[offs + i] := payload[i];
    }
    if |payload| < t {
      forall i | |payload| <= i < t {
        buf[offs + i] := 0;
      }
    }
  }

  method CopyRun(src: array<Byte>, a: nat, dst: array<Byte>, b: nat, t: nat)
    requires src != dst && a + t <= src.Length && b + t <= dst.Length
    modifies dst
    ensures dst[b..b + t] == src[a..a + t]
    ensures dst[..b] == old(dst[..b])
    ensures dst[b + t..] == old(dst[b + t..])
  {
    forall j | 0 <= j < t {
      dst[b + j] := src[a + j];
    }
  }

  method WriteBlock(dataOut: array<Byte>, data: seq<Byte>)
    requires |data| <= dataOut.Length
    modifies dataOut
    ensures dataOut[..|data|] == data
    ensures dataOut[|data|..] == old(dataOut[|data|..])
  {
    forall j | 0 <= j < |data| {
      dataOut[j] := data[j];
    }
  }

  /** Symbol i of the flat buffer is that of entry i. */
  ghost predicate SymbolsAt(buf: seq<Byte>, entries: seq<Entry>, t: nat) {
    forall i :: 0 <= i < |entries| ==> Window(buf, i, t) == entries[i].sym
  }

  lemma SymbolsExtend(buf: seq<Byte>, buf': seq<Byte>, entries: seq<Entry>, e: Entry, t: nat)
    requires SymbolsAt(buf, entries, t)
    requires |buf'| == |buf|
    requires Span(|entries|, t) + t <= |buf|
    requires buf'[..Span(|entries|, t)] == buf[..Span(|entries|, t)]
    requires buf'[Span(|entries|, t)..Span(|entries|, t) + t] == e.sym
    ensures SymbolsAt(buf', entries + [e], t)
  {
    forall i | 0 <= i < |entries|
      ensures Window(buf', i, t) == entries[i].sym
    {
      SameWindow(buf, buf', i, |entries|, t);
    }
  }

  lemma NextEntry(entries: seq<Entry>, i: nat)
    requires i < |entries| && Distinct(Ids(entries))
    ensures entries[i].id !in Ids(entries[..i])
    ensures entries[..i + 1] == entries[..i] + [entries[i]]
  {
    assert Ids(entries[..i]) == Ids(entries)[..i];
  }

  lemma ZeroWindows(buf: seq<Byte>, k: nat, t: nat, entries: seq<Entry>)
    requires Span(k, t) <= |buf| && forall j :: 0 <= j < Span(k, t) ==> buf[j] == 0
    ensures CopyOf(buf, k, t, entries[..0])
  {
    forall i: nat | i < k
      ensures Window(buf, i, t) == Zeros(t)
    {
      WindowFits(i, t, k);
    }
  }

  lemma RunApart(buf: seq<Byte>, buf': seq<Byte>, a: nat, b: nat, t: nat)
    requires |buf| == |buf'| && a + t <= |buf| && b + t <= |buf|
    requires buf'[..a] == buf[..a] && buf'[a + t..] == buf[a + t..]
    requires b + t <= a || a + t <= b
    ensures buf'[b..b + t] == buf[b..b + t]
  {
    if b + t <= a {
      SameRun(buf, buf', a, b, t);
    } else {
      forall x | b <= x < b + t
        ensures buf'[x] == buf[x]
      {
        assert buf'[x] == buf'[a + t..][x - a - t];
      }
    }
  }

  lemma TailOfTail<X>(s: seq<X>, u: seq<X>, a: nat, b: nat)
    requires a <= b <= |s| && a <= |u| && s[a..] == u[a..]
    ensures b <= |u| && s[b..] == u[b..]
  {
    assert s[b..] == s[a..][b - a..];
    assert u[b..] == u[a..][b - a..];
  }

  /** Writing window i leaves window j alone. */
  lemma WindowApart(buf: seq<Byte>, buf': seq<Byte>, i: nat, j: nat, k: nat, t: nat)
    requires i != j && i < k && j < k && Span(k, t) <= |buf| == |buf'|
    requires Span(i, t) + t <= |buf|
    requires buf'[..Span(i, t)] == buf[..Span(i, t)] && buf'[Span(i, t) + t..] == buf[Span(i, t) + t..]
    ensures Window(buf', j, t) == Window(buf, j, t)
  {
    WindowFits(j, t, k);
    if i < j {
      WindowFits(i, t, j);
    } else {
      WindowFits(j, t, i);
    }
    RunApart(buf, buf', Span(i, t), Span(j, t), t);
  }

  /** buf' is buf with the symbol of e, if it is a source symbol, put in its place. */
  lemma ExtendWindows(buf: seq<Byte>, buf': seq<Byte>, k: nat, t: nat, entries: seq<Entry>, e: Entry)
    requires CopyOf(buf, k, t, entries) && e.id !in Ids(entries)
    requires Span(k, t) <= |buf| == |buf'|
    requires if e.id >= k then buf' == buf else
      && Span(e.id, t) + t <= |buf|
      && Window(buf', e.id, t) == e.sym
      && buf'[..Span(e.id, t)] == buf[..Span(e.id, t)] && buf'[Span(e.id, t) + t..] == buf[Span(e.id, t) + t..]
    ensures CopyOf(buf', k, t, entries + [e])
  {
    forall j: nat | j < k
      ensures Window(buf', j, t) == Store(k, t, entries + [e]).SourceOrZero(j)
    {
      ExtendCopy(k, t, entries, e, j);
      if j != e.id && e.id < k {
        WindowApart(buf, buf', e.id, j, k, t);
      }
    }
  }
}
