/** Command lines from a stream that arrives in arbitrary chunks, through a fixed buffer. */
module LineReader {
  import opened Bytes

  const NUL: Byte := 0
  const NEWLINE: Byte := 10
  const BUF_SIZE := 256
  const BUF_MAX := 255

  /** What happens on the input: bytes arrive, the end of the input if there are none, or
      read() has nothing to give yet. read() takes as much as it has room for. */
  datatype Chunk = Data(bytes: seq<Byte>) | Blocked

  datatype Outcome = Line(text: seq<Byte>) | NoLine | Exit

  ghost predicate NulFree(s: seq<Byte>) {
    forall i :: 0 <= i < |s| ==> s[i] != NUL
  }

  ghost predicate NulFreeInput(input: seq<Chunk>) {
    forall i :: 0 <= i < |input| && input[i].Data? ==> NulFree(input[i].bytes)
  }

  /** The position of the first newline at or after from, or the length. */
  function FirstNewline(s: seq<Byte>, from: nat): (k: nat)
    requires from <= |s|
    ensures from <= k <= |s|
    ensures forall i :: from <= i < k ==> s[i] != NEWLINE
    ensures k < |s| ==> s[k] == NEWLINE
    decreases |s| - from
  {
    if from == |s| || s[from] == NEWLINE then from else FirstNewline(s, from + 1)
  }

  // ----- one call

  /** The outcome, the bytes left in the buffer, the input left, and how often a full buffer
      was thrown away. */
  datatype Call = Call(outcome: Outcome, pending: seq<Byte>, input: seq<Chunk>, drops: nat)

  /** How many bytes read() takes of those that arrived. */
  function Taken(pending: seq<Byte>, bytes: seq<Byte>): (n: nat)
    requires |pending| < BUF_MAX
    ensures n <= |bytes| && |pending| + n <= BUF_MAX
    ensures bytes != [] ==> n > 0
    ensures n < |bytes| ==> |pending| + n == BUF_MAX
  {
    Min(|bytes|, BUF_MAX - |pending|)
  }

  /** The input after n bytes of its first chunk were taken. */
  function Rest(input: seq<Chunk>, n: nat): seq<Chunk>
    requires input != [] && input[0].Data? && n <= |input[0].bytes|
  {
    (if n < |input[0].bytes| then [Data(input[0].bytes[n..])] else []) + input[1..]
  }

  /** What is in the buffer after a read: nothing if that filled it. */
  function Buffered(pending: seq<Byte>, bytes: seq<Byte>): (p: seq<Byte>)
    ensures |pending| + |bytes| != BUF_MAX ==> p == pending + bytes
    ensures |pending| + |bytes| <= BUF_MAX ==> |p| < BUF_MAX
  {
    if |pending| + |bytes| == BUF_MAX then [] else pending + bytes
  }

  function Weight(input: seq<Chunk>): nat {
    if input == [] then 0 else (if input[0].Data? then |input[0].bytes| else 0) + 1 + Weight(input[1..])
  }

  lemma RestWeight(input: seq<Chunk>, n: nat)
    requires input != [] && input[0].Data? && n <= |input[0].bytes|
    ensures Weight(Rest(input, n)) + n + (if n < |input[0].bytes| then 0 else 1) == Weight(input)
  {
    if n < |input[0].bytes| {
      assert Rest(input, n)[1..] == input[1..];
    } else {
      assert Rest(input, n) == input[1..];
    }
  }

  function NextLine(pending: seq<Byte>, input: seq<Chunk>): (c: Call)
    requires |pending| < BUF_MAX
    ensures |c.pending| < BUF_MAX
    ensures |c.pending| + Weight(c.input) + (if c.outcome.Line? || (c.outcome.NoLine? && c.input != []) then 1 else 0)
         <= |pending| + Weight(input)
    decreases Weight(input)
  {
    var k := FirstNewline(pending, 0);
    if k < |pending| then Call(Line(pending[..k]), pending[k + 1..], input, 0)
    else if input == [] then Call(NoLine, pending, input, 0)
    else match input[0]
      case Blocked => Call(NoLine, pending, input[1..], 0)
      case Data(bytes) =>
        if bytes == [] then Call(Exit, pending, input[1..], 0)
        else
          var n := Taken(pending, bytes);
          RestWeight(input, n);
          var c := NextLine(Buffered(pending, bytes[..n]), Rest(input, n));
          c.(drops := c.drops + if |pending| + n == BUF_MAX then 1 else 0)
  }

  // ----- the buffer

  /** strchr for a newline: the search stops at the first NUL. */
  function StrChr(s: seq<Byte>, from: nat): (k: int)
    requires from < |s| && s[|s| - 1] == NUL
    ensures k == -1 || (from <= k < |s| - 1 && s[k] == NEWLINE)
    decreases |s| - from
  {
    if s[from] == NEWLINE then from
    else if s[from] == NUL then -1
    else StrChr(s, from + 1)
  }

  function Found(s: seq<Byte>, from: nat): int
    requires from <= |s|
  {
    if FirstNewline(s, from) < |s| then FirstNewline(s, from) else -1
  }

  /** In a NUL-free buffer that is the first newline. */
  lemma {:induction false} StrChrFindsFirst(s: seq<Byte>, from: nat)
    requires from <= |s| && NulFree(s)
    ensures StrChr(s + [NUL], from) == Found(s, from)
    decreases |s| - from
  {
    if from < |s| && s[from] != NEWLINE {
      StrChrFindsFirst(s, from + 1);
    }
  }

  /** Searching only the new data misses no newline. */
  lemma {:induction false} ResumeSearch(s: seq<Byte>, from: nat, at: nat)
    requires at <= from <= |s| && forall i :: 0 <= i < from ==> s[i] != NEWLINE
    ensures FirstNewline(s, from) == FirstNewline(s, at)
    decreases from - at
  {
    if at < from {
      ResumeSearch(s, from, at + 1);
    }
  }

  /** The length of a string: up to its first NUL. */
  function StrLen(s: seq<Byte>): (n: nat)
    ensures n <= |s| && (NulFree(s) ==> n == |s|)
  {
    if s == [] || s[0] == NUL then 0
    else
      assert NulFree(s) ==> NulFree(s[1..]);
      1 + StrLen(s[1..])
  }

  /** A call without another read. */
  lemma CallEnds(pending: seq<Byte>, input: seq<Chunk>)
    requires |pending| < BUF_MAX
    ensures var k := FirstNewline(pending, 0);
            && (k < |pending| ==>
                  NextLine(pending, input) == Call(Line(pending[..k]), pending[k + 1..], input, 0)
                  && (NulFree(pending) ==> NulFree(pending[k + 1..])))
            && (k == |pending| && input == [] ==> NextLine(pending, input) == Call(NoLine, pending, [], 0))
            && (k == |pending| && input != [] && input[0].Blocked? ==>
                  NextLine(pending, input) == Call(NoLine, pending, input[1..], 0))
            && (k == |pending| && input != [] && input[0] == Data([]) ==>
                  NextLine(pending, input) == Call(Exit, pending, input[1..], 0))
    ensures NulFreeInput(input) && input != [] ==> NulFreeInput(input[1..])
  {
  }

  /** A call that reads on. */
  lemma CallReads(pending: seq<Byte>, input: seq<Chunk>)
    requires |pending| < BUF_MAX && FirstNewline(pending, 0) == |pending|
    requires input != [] && input[0].Data? && input[0].bytes != []
    ensures var n := Taken(pending, input[0].bytes);
            && SameCall(NextLine(Buffered(pending, input[0].bytes[..n]), Rest(input, n)), NextLine(pending, input))
            && (|pending| + n < 255 ==>
                  NextLine(Buffered(pending, input[0].bytes[..n]), Rest(input, n)) == NextLine(pending, input))
  {
    hide Rest, Buffered, Weight;
  }

  lemma RestNulFree(input: seq<Chunk>, n: nat)
    requires input != [] && input[0].Data? && n <= |input[0].bytes| && NulFreeInput(input)
    ensures NulFree(input[0].bytes[..n]) && NulFreeInput(Rest(input, n))
  {
    assert NulFree(input[0].bytes);
    forall i | 0 <= i < |Rest(input, n)| && Rest(input, n)[i].Data?
      ensures NulFree(Rest(input, n)[i].bytes)
    {
      var shift := if n < |input[0].bytes| then 0 else 1;
      assert input[i + shift].Data?;
    }
  }

  class Reader {
    const buf: array<Byte>
    var nBytesInBuf: nat

    /** The buffer is not full, and its contents end with a NUL. */
    ghost predicate Valid()
      reads this, buf
    {
      buf.Length == BUF_SIZE && nBytesInBuf < BUF_MAX && buf[nBytesInBuf] == NUL
    }

    ghost function Pending(): seq<Byte>
      requires Valid()
      reads this, buf
    {
      buf[..nBytesInBuf]
    }

    constructor ()
      ensures Valid() && Pending() == []
    {
      var b := new Byte[BUF_SIZE];
      b[0] := NUL;
      buf := b;
      nBytesInBuf := 0;
    }

    /** The next line, cut to destSz - 1 bytes, from what is pending and what arrives. */
    method GetNextLine(destSz: nat, input: seq<Chunk>) returns (outcome: Outcome, left: seq<Chunk>)
      requires Valid() && destSz > 0
      modifies `nBytesInBuf, buf
      ensures Valid()
      ensures old(NulFree(Pending())) && NulFreeInput(input) ==>
                var c := NextLine(old(Pending()), input);
                && Pending() == c.pending && left == c.input && NulFree(Pending()) && NulFreeInput(left)
                && outcome == if c.outcome.Line? then Line(c.outcome.text[..Min(|c.outcome.text|, destSz - 1)]) else c.outcome
    {
      hide NextLine, Rest, Buffered, Weight, NulFree;
      ghost var clean := NulFree(Pending()) && NulFreeInput(input);
      ghost var call := NextLine(Pending(), input);
      left := input;
      var p := Search(0, clean);
      while p == -1
        invariant Valid() && -1 <= p < nBytesInBuf
        invariant clean ==> NulFree(Pending()) && NulFreeInput(left)
        invariant clean ==> p == Found(Pending(), 0)
        invariant clean ==> SameCall(NextLine(Pending(), left), call)
        decreases Weight(left)
      {
        if clean {
          CallEnds(Pending(), left);
        }
        if left == [] {
          return NoLine, left;
        }
        var chunk := left[0];
        if chunk.Blocked? || chunk.bytes == [] {
          left := left[1..];
          return if chunk.Blocked? then NoLine else Exit, left;
        }
        var n := Taken(buf[..nBytesInBuf], chunk.bytes);
        RestWeight(left, n);
        if clean {
          CallReads(Pending(), left);
          RestNulFree(left, n);
        }
        p := ReadMore(chunk.bytes[..n], clean);
        left := Rest(left, n);
      }
      if clean {
        CallEnds(Pending(), left);
      }
      outcome := TakeLine(p, destSz);
    }

    /** strchr over the buffer from a position before which there is no newline. */
    method Search(from: nat, ghost clean: bool) returns (p: int)
      requires Valid() && from <= nBytesInBuf
      requires clean ==> NulFree(Pending()) && forall i :: 0 <= i < from ==> buf[i] != NEWLINE
      ensures -1 <= p < nBytesInBuf
      ensures clean ==> p == Found(Pending(), 0)
    {
      ghost var s := Pending();
      assert buf[..nBytesInBuf + 1] == s + [NUL];
      p := StrChr(buf[..nBytesInBuf + 1], from);
      if clean {
        StrChrFindsFirst(s, from);
        ResumeSearch(s, from, 0);
      }
    }

    /** Append what was read and search it; a buffer that got full is thrown away. */
    method ReadMore(bytes: seq<Byte>, ghost clean: bool) returns (p: int)
      requires Valid() && nBytesInBuf + |bytes| <= BUF_MAX
      requires clean ==> NulFree(Pending()) && NulFree(bytes) && Found(Pending(), 0) == -1
      modifies `nBytesInBuf, buf
      ensures Valid() && -1 <= p < nBytesInBuf
      ensures Pending() == Buffered(old(Pending()), bytes)
      ensures clean ==> NulFree(Pending()) && p == Found(Pending(), 0)
    {
      ghost var before := Pending();
      forall i | 0 <= i < |bytes| {
        buf[nBytesInBuf + i] := bytes[i];
      }
      var search := nBytesInBuf;
      nBytesInBuf := nBytesInBuf + |bytes|;
      buf[nBytesInBuf] := NUL;
      assert buf[..nBytesInBuf] == before + bytes;
      if nBytesInBuf == BUF_MAX {
        search := 0;
        nBytesInBuf := 0;
        buf[0] := NUL;
      }
      p := Search(search, clean);
    }

    /** Deliver the line that ends at p and shift the rest to the front. */
    method TakeLine(p: nat, destSz: nat) returns (outcome: Outcome)
      requires Valid() && p < nBytesInBuf && destSz > 0
      modifies `nBytesInBuf, buf
      ensures Valid()
      ensures Pending() == old(Pending())[p + 1..]
      ensures outcome.Line?
      ensures old(NulFree(Pending())) ==> outcome == Line(old(Pending())[..Min(p, destSz - 1)])
    {
      ghost var before := Pending();
      buf[p] := NUL;
      var text := buf[..p];
      assert text == before[..p];
      outcome := Line(if destSz > p then text[..StrLen(text)] else text[..destSz - 1]);
      assert before[p + 1..] + [NUL] == buf[p + 1..nBytesInBuf + 1];
      ShiftBy(p + 1, before[p + 1..]);
    }

    /** memmove of the bytes from delta on, with their NUL, to the front. */
    method ShiftBy(delta: nat, ghost tail: seq<Byte>)
      requires buf.Length == BUF_SIZE && delta <= nBytesInBuf < BUF_MAX
      requires tail + [NUL] == buf[delta..nBytesInBuf + 1]
      modifies `nBytesInBuf, buf
      ensures Valid() && Pending() == tail
    {
      ghost var all := tail + [NUL];
      assert forall i :: 0 <= i < |all| ==> buf[delta + i] == all[i];
      nBytesInBuf := nBytesInBuf - delta;
      forall i | 0 <= i < nBytesInBuf + 1 {
        buf[i] := buf[delta + i];
      }
      assert forall i :: 0 <= i < |all| ==> buf[i] == all[i];
      assert forall i :: 0 <= i < |tail| ==> all[i] == tail[i];
    }
  }

  /** The same call except for the full buffers thrown away before. */
  ghost predicate SameCall(c: Call, d: Call) {
    c.(drops := 0) == d.(drops := 0)
  }

  // ----- all lines of an input, whatever the chunks

  /** The lines of a byte string, without their newlines, and what follows the last one. */
  function Split(s: seq<Byte>): (seq<seq<Byte>>, seq<Byte>)
    decreases |s|
  {
    var k := FirstNewline(s, 0);
    if k == |s| then ([], s)
    else
      var (lines, rest) := Split(s[k + 1..]);
      ([s[..k]] + lines, rest)
  }

  function Framed(lines: seq<seq<Byte>>): seq<Byte> {
    if lines == [] then [] else lines[0] + [NEWLINE] + Framed(lines[1..])
  }

  /** Splitting loses nothing. */
  lemma {:induction false} SplitIsFaithful(s: seq<Byte>)
    ensures Framed(Split(s).0) + Split(s).1 == s
    decreases |s|
  {
    var k := FirstNewline(s, 0);
    if k < |s| {
      var tail := s[k + 1..];
      SplitIsFaithful(tail);
      FramedCons(s[..k], Split(tail).0);
      JoinAgain(s, k, Framed(Split(tail).0), Split(tail).1);
    }
  }

  lemma JoinAgain(s: seq<Byte>, k: nat, framed: seq<Byte>, rest: seq<Byte>)
    requires k < |s| && s[k] == NEWLINE && framed + rest == s[k + 1..]
    ensures s[..k] + [NEWLINE] + framed + rest == s
  {
    assert s[..k] + [NEWLINE] + framed + rest == s[..k] + [NEWLINE] + (framed + rest);
    assert s == s[..k] + [s[k]] + s[k + 1..];
  }

  lemma FramedCons(line: seq<Byte>, lines: seq<seq<Byte>>)
    ensures Framed([line] + lines) == line + [NEWLINE] + Framed(lines)
  {
    assert ([line] + lines)[1..] == lines;
  }

  /** All the lines read from an input by repeated calls, blocked or not, what is pending at
      the end, and the number of full buffers thrown away. */
  datatype Session = Session(lines: seq<seq<Byte>>, pending: seq<Byte>, drops: nat)

  function ReadAll(pending: seq<Byte>, input: seq<Chunk>): (s: Session)
    requires |pending| < BUF_MAX
    decreases |pending| + Weight(input)
  {
    var c := NextLine(pending, input);
    match c.outcome
    case Line(text) =>
      var s := ReadAll(c.pending, c.input);
      Session([text] + s.lines, s.pending, c.drops + s.drops)
    case NoLine =>
      if c.input == [] then Session([], c.pending, c.drops)
      else
        var s := ReadAll(c.pending, c.input);
        s.(drops := c.drops + s.drops)
    case Exit => Session([], c.pending, c.drops)
  }

  /** The bytes of an input. */
  function Stream(input: seq<Chunk>): seq<Byte> {
    if input == [] then []
    else (if input[0].Data? then input[0].bytes else []) + Stream(input[1..])
  }

  ghost predicate Endless(input: seq<Chunk>) {
    forall i :: 0 <= i < |input| && input[i].Data? ==> input[i].bytes != []
  }

  lemma RestStream(input: seq<Chunk>, n: nat)
    requires input != [] && input[0].Data? && n <= |input[0].bytes|
    ensures input[0].bytes[..n] + Stream(Rest(input, n)) == Stream(input)
    ensures Endless(input) ==> Endless(Rest(input, n))
  {
    var b := input[0].bytes;
    assert b == b[..n] + b[n..];
    if n < |b| {
      assert Rest(input, n)[1..] == input[1..];
    } else {
      assert Rest(input, n) == input[1..];
    }
  }

  /** Reading on is the same as having read before. */
  lemma ReadStep(pending: seq<Byte>, input: seq<Chunk>)
    requires |pending| < BUF_MAX && FirstNewline(pending, 0) == |pending|
    requires input != [] && input[0].Data? && input[0].bytes != []
    ensures var n := Taken(pending, input[0].bytes);
            var s := ReadAll(Buffered(pending, input[0].bytes[..n]), Rest(input, n));
            ReadAll(pending, input) == s.(drops := s.drops + if |pending| + n == BUF_MAX then 1 else 0)
  {
    var n := Taken(pending, input[0].bytes);
    RestWeight(input, n);
  }

  lemma FirstNewlineExtends(s: seq<Byte>, u: seq<Byte>, from: nat)
    requires from <= |s| && FirstNewline(s, from) < |s|
    ensures FirstNewline(s + u, from) == FirstNewline(s, from)
    decreases |s| - from
  {
    if s[from] != NEWLINE {
      FirstNewlineExtends(s, u, from + 1);
    }
  }

  // ----- one call, said of what arrives

  ghost predicate NoNewline(s: seq<Byte>) {
    forall i :: 0 <= i < |s| ==> s[i] != NEWLINE
  }

  /** Bytes without a newline that do not fill the buffer are gathered however they come. */
  lemma {:induction false} ReadThrough(pending: seq<Byte>, a: seq<Chunk>, rest: seq<Chunk>, whole: seq<Byte>)
    requires whole == pending + Stream(a) && AllData(a) && |whole| < 255 && NoNewline(whole)
    ensures NextLine(pending, a + rest) == NextLine(whole, rest)
    decreases |a|
  {
    hide NextLine, NoNewline;
    if a == [] {
      assert whole == pending && a + rest == rest;
    } else {
      FrontOf(a, rest);
      FirstChunk(pending, a);
      ReadChunk(pending, Stream(a), a + rest);
      ReadThrough(pending + a[0].bytes, a[1..], rest, whole);
    }
  }

  lemma FrontOf<X>(a: seq<X>, b: seq<X>)
    requires a != []
    ensures (a + b)[0] == a[0] && (a + b)[1..] == a[1..] + b
  {
  }

  lemma FirstChunk(pending: seq<Byte>, a: seq<Chunk>)
    requires a != [] && a[0].Data?
    ensures pending + Stream(a) == pending + a[0].bytes + Stream(a[1..])
    ensures |a[0].bytes| <= |Stream(a)|
  {
  }

  lemma ReadChunk(pending: seq<Byte>, stream: seq<Byte>, input: seq<Chunk>)
    requires NoNewline(pending + stream) && |pending| + |stream| < 255
    requires input != [] && input[0].Data? && input[0].bytes != [] && |input[0].bytes| <= |stream|
    ensures NextLine(pending, input) == NextLine(pending + input[0].bytes, input[1..])
  {
    assert forall i :: 0 <= i < |pending| ==> pending[i] == (pending + stream)[i];
    assert FirstNewline(pending, 0) == |pending|;
    hide NextLine;
    WholeChunk(pending, input);
    CallReads(pending, input);
  }

  ghost predicate AllData(a: seq<Chunk>) {
    forall i :: 0 <= i < |a| ==> a[i].Data? && a[i].bytes != []
  }

  /** Without a complete line a call keeps what came: it gives up when there is nothing to
      read yet, and exits at the end of the input. */
  lemma CallWithoutLine(pending: seq<Byte>, a: seq<Chunk>, x: Chunk, b: seq<Chunk>)
    requires AllData(a) && |pending + Stream(a)| < 255 && NoNewline(pending + Stream(a))
    requires x.Blocked? || x.bytes == []
    ensures NextLine(pending, a + ([x] + b)) == Call(if x.Blocked? then NoLine else Exit, pending + Stream(a), b, 0)
  {
    ReadThrough(pending, a, [x] + b, pending + Stream(a));
    CallEnds(pending + Stream(a), [x] + b);
    FrontOf([x], b);
    assert [x][1..] + b == b;
  }

  /** A call delivers the line as soon as the chunk with its newline was read, and reads no
      further. */
  lemma CallWithLine(pending: seq<Byte>, a: seq<Chunk>, x: Chunk, b: seq<Chunk>)
    requires AllData(a) && NoNewline(pending + Stream(a)) && x.Data?
    requires |pending + Stream(a) + x.bytes| < 255
    requires !NoNewline(x.bytes)
    ensures var s := pending + Stream(a) + x.bytes;
            var k := FirstNewline(s, 0);
            k < |s| && NextLine(pending, a + ([x] + b)) == Call(Line(s[..k]), s[k + 1..], b, 0)
  {
    ReadThrough(pending, a, [x] + b, pending + Stream(a));
    FrontOf([x], b);
    assert [x][1..] + b == b;
    LineComes(pending + Stream(a), [x] + b);
  }

  lemma LineComes(pending: seq<Byte>, input: seq<Chunk>)
    requires NoNewline(pending) && input != [] && input[0].Data? && !NoNewline(input[0].bytes)
    requires |pending + input[0].bytes| < 255
    ensures var s := pending + input[0].bytes;
            var k := FirstNewline(s, 0);
            k < |s| && NextLine(pending, input) == Call(Line(s[..k]), s[k + 1..], input[1..], 0)
  {
    WholeChunk(pending, input);
    CallReads(pending, input);
    CallEnds(pending + input[0].bytes, input[1..]);
    hide NextLine;
    var i :| 0 <= i < |input[0].bytes| && input[0].bytes[i] == NEWLINE;
    assert (pending + input[0].bytes)[|pending| + i] == NEWLINE;
  }

  /** A line that is complete already is the first line of the stream. */
  lemma SplitPending(pending: seq<Byte>, u: seq<Byte>)
    requires FirstNewline(pending, 0) < |pending|
    ensures var k := FirstNewline(pending, 0);
            var (lines, rest) := Split(pending[k + 1..] + u);
            Split(pending + u) == ([pending[..k]] + lines, rest)
  {
    var k := FirstNewline(pending, 0);
    FirstNewlineExtends(pending, u, 0);
    assert (pending + u)[k + 1..] == pending[k + 1..] + u;
    assert (pending + u)[..k] == pending[..k];
  }

  lemma SplitNothing(pending: seq<Byte>)
    ensures FirstNewline(pending, 0) == |pending| ==> Split(pending) == ([], pending)
  {
  }

  /** Whenever bytes arrive, they and the unfinished line before them stay below the size of
      the buffer. */
  predicate Fits(line: seq<Byte>, input: seq<Chunk>)
    decreases |input|
  {
    if input == [] then true
    else if input[0].Blocked? then Fits(line, input[1..])
    else |line| + |input[0].bytes| < 255 && Fits(Split(line + input[0].bytes).1, input[1..])
  }

  /** No full buffer is thrown away exactly when the input fits. */
  lemma {:induction false} NoDropsExactlyWhenFits(pending: seq<Byte>, input: seq<Chunk>)
    requires |pending| < BUF_MAX && Endless(input)
    ensures ReadAll(pending, input).drops == 0 <==> Fits(Split(pending).1, input)
    decreases |pending| + Weight(input)
  {
    hide Rest, Buffered, Split;
    SplitNothing(pending);
    var k := FirstNewline(pending, 0);
    if k < |pending| {
      NoDropsExactlyWhenFits(pending[k + 1..], input);
      SplitPending(pending, []);
      assert pending[k + 1..] + [] == pending[k + 1..] && pending + [] == pending;
    } else if input == [] {
    } else if input[0].Blocked? {
      if input[1..] != [] {
        NoDropsExactlyWhenFits(pending, input[1..]);
      }
    } else {
      var n := Taken(pending, input[0].bytes);
      ReadStep(pending, input);
      RestWeight(input, n);
      if |pending| + |input[0].bytes| < 255 {
        WholeChunk(pending, input);
        NoDropsExactlyWhenFits(pending + input[0].bytes, input[1..]);
      }
    }
  }

  /** A chunk that does not fill the buffer is read in one go. */
  lemma WholeChunk(pending: seq<Byte>, input: seq<Chunk>)
    requires input != [] && input[0].Data? && |pending| + |input[0].bytes| < BUF_MAX
    ensures Taken(pending, input[0].bytes) == |input[0].bytes|
    ensures input[0].bytes[..|input[0].bytes|] == input[0].bytes
    ensures Rest(input, |input[0].bytes|) == input[1..]
    ensures Buffered(pending, input[0].bytes) == pending + input[0].bytes
  {
  }

  /** Chunk-independent framing: as long as the buffer never fills, the lines and what is
      pending are those of the byte stream itself. */
  lemma {:induction false} LinesOfStream(pending: seq<Byte>, input: seq<Chunk>)
    requires |pending| < BUF_MAX && Endless(input)
    requires Fits(Split(pending).1, input)
    ensures var s := ReadAll(pending, input);
            (s.lines, s.pending) == Split(pending + Stream(input))
  {
    NoDropsExactlyWhenFits(pending, input);
    LinesWithoutDrops(pending, input);
  }

  lemma {:induction false} LinesWithoutDrops(pending: seq<Byte>, input: seq<Chunk>)
    requires |pending| < BUF_MAX && Endless(input)
    requires ReadAll(pending, input).drops == 0
    ensures var s := ReadAll(pending, input);
            (s.lines, s.pending) == Split(pending + Stream(input))
    decreases |pending| + Weight(input)
  {
    hide Rest, Buffered, Split;
    SplitNothing(pending);
    var k := FirstNewline(pending, 0);
    if k < |pending| {
      LinesWithoutDrops(pending[k + 1..], input);
      SplitPending(pending, Stream(input));
    } else if input == [] {
      assert pending + Stream(input) == pending;
    } else if input[0].Blocked? {
      if input[1..] == [] {
        assert pending + Stream(input) == pending;
      } else {
        LinesWithoutDrops(pending, input[1..]);
        assert Stream(input) == Stream(input[1..]);
      }
    } else {
      var n := Taken(pending, input[0].bytes);
      var b := input[0].bytes[..n];
      ReadStep(pending, input);
      RestStream(input, n);
      RestWeight(input, n);
      assert pending + b + Stream(Rest(input, n)) == pending + Stream(input);
      LinesWithoutDrops(pending + b, Rest(input, n));
    }
  }

  /** How the bytes were split over reads does not matter as long as they fit. */
  lemma {:induction false} ChunkIndependent(a: seq<Chunk>, b: seq<Chunk>)
    requires Endless(a) && Endless(b) && Stream(a) == Stream(b)
    requires Fits([], a) && Fits([], b)
    ensures ReadAll([], a) == ReadAll([], b)
  {
    LinesOfStream([], a);
    LinesOfStream([], b);
    NoDropsExactlyWhenFits([], a);
    NoDropsExactlyWhenFits([], b);
  }

  /** Every full buffer thrown away costs exactly 255 bytes, and nothing else is lost. */
  lemma {:induction false} BytesAccounted(pending: seq<Byte>, input: seq<Chunk>)
    requires |pending| < BUF_MAX && Endless(input)
    ensures var s := ReadAll(pending, input);
            && |Framed(s.lines)| + |s.pending| + 255 * s.drops == |pending| + |Stream(input)|
    decreases |pending| + Weight(input)
  {
    var k := FirstNewline(pending, 0);
    if k < |pending| {
      BytesAccounted(pending[k + 1..], input);
      var s := ReadAll(pending[k + 1..], input);
      assert ([pending[..k]] + s.lines)[1..] == s.lines;
    } else if input == [] {
    } else if input[0].Blocked? {
      if input[1..] != [] {
        BytesAccounted(pending, input[1..]);
      }
    } else {
      var n := Taken(pending, input[0].bytes);
      ReadStep(pending, input);
      RestStream(input, n);
      RestWeight(input, n);
      BytesAccounted(Buffered(pending, input[0].bytes[..n]), Rest(input, n));
    }
  }

  /** The lines and what is pending are the whole input exactly when it fits. */
  lemma {:induction false} WholeInputKept(pending: seq<Byte>, input: seq<Chunk>)
    requires |pending| < BUF_MAX && Endless(input)
    ensures var s := ReadAll(pending, input);
            Framed(s.lines) + s.pending == pending + Stream(input) <==> Fits(Split(pending).1, input)
  {
    var s := ReadAll(pending, input);
    BytesAccounted(pending, input);
    NoDropsExactlyWhenFits(pending, input);
    if s.drops == 0 {
      LinesOfStream(pending, input);
      SplitIsFaithful(pending + Stream(input));
    }
  }

  /** Complete lines are lost when they arrive together with enough bytes to fill the
      buffer: here a one-byte line and 253 more bytes, in one read. */
  lemma FullBufferLosesLines()
    ensures var input := [Data([65, NEWLINE] + seq(253, _ => 66))];
            !Fits([], input) && ReadAll([], input) == Session([], [], 1)
  {
    var bytes: seq<Byte> := [65, NEWLINE] + seq(253, _ => 66);
    var input := [Data(bytes)];
    assert bytes[..255] == bytes;
    assert Taken([], bytes) == 255 && Rest(input, 255) == [];
    assert NextLine([], []) == Call(NoLine, [], [], 0);
    ReadStep([], input);
  }
}
