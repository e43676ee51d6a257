/** The coding parameters that sender and receiver both derive from the file size. */
module ParamDeriv {
  import opened Wrappers
  import opened Bytes

  const PD_T := 1024
  const PD_MAX_K := 50000
  /** The largest file one code block can hold. */
  const MAX_FILE_SIZE := PD_T * PD_MAX_K

  type UInt16 = x: int | 0 <= x < 0x1_0000
  type UInt32 = x: int | 0 <= x < 0x1_0000_0000

  /** C's division, which truncates toward zero. */
  function TruncDiv(a: int, b: int): int
    requires b > 0
  {
    if a >= 0 then a / b else -((-a) / b)
  }

  /** The value of a C int that was computed as x, with wrap-around. */
  function Int32(x: int): int {
    (x + 0x8000_0000) % 0x1_0000_0000 - 0x8000_0000
  }

  lemma Int32Value(x: int)
    requires -0x8000_0000 <= x < 0x1_8000_0000
    ensures Int32(x) == if x < 0x8000_0000 then x else x - 0x1_0000_0000
  {
  }

  function CeilDiv(a: int, b: int): int
    requires b > 0
  {
    TruncDiv(Int32(a + b - 1), b)
  }

  datatype CodingParams = CodingParams(
    T: nat, nSrcSymTot: nat, nCb: nat, KLarge: nat, nLarge: nat)
  {
    /** Number of source symbols of code block cb. */
    function BlockK(cb: nat): int {
      KLarge - (if cb >= nLarge then 1 else 0)
    }

    /** Number of source symbols in the code blocks before cb. */
    function SymsBefore(cb: nat): int {
      if cb == 0 then 0 else SymsBefore(cb - 1) + BlockK(cb - 1)
    }

    /** The parameters cut fileLen bytes into nCb non-empty balanced blocks. */
    ghost predicate Valid(fileLen: nat) {
      && T > 0
      && 1 <= nLarge <= nCb
      && 1 <= KLarge
      && (nLarge < nCb ==> 2 <= KLarge)
      && SymsBefore(nCb) == nSrcSymTot
      && Span(nSrcSymTot, T) - T < fileLen <= Span(nSrcSymTot, T)
    }
  }

  function CeilQuot(n: nat, d: nat): (q: nat)
    requires d > 0
    ensures (q - 1) * d < n <= q * d
  {
    assert n + d - 1 == (n + d - 1) / d * d + (n + d - 1) % d;
    (n + d - 1) / d
  }

  /** The balanced partition of n symbols into nCb blocks of t-byte symbols. */
  function Partition(n: nat, nCb: nat, t: nat): CodingParams
    requires nCb > 0
  {
    var kLarge := CeilQuot(n, nCb);
    var nSmall := kLarge * nCb - n;
    assert nSmall < nCb by {
      assert (kLarge - 1) * nCb == kLarge * nCb - nCb;
    }
    CodingParams(t, n, nCb, kLarge, nCb - nSmall)
  }

  /** In 32-bit arithmetic the quotient by PD_MAX_K rounds up to 1 for no other n. */
  lemma OneBlock(n: int)
    requires -0x8000_0000 <= n < 0x8000_0000
    ensures CeilDiv(n, PD_MAX_K) == 1 <==> 1 <= n <= PD_MAX_K
  {
    Int32Value(n + PD_MAX_K - 1);
  }

  lemma CeilDivRange(a: int)
    requires -0x8000_0000 <= a < 0x8000_0000
    ensures -0x8000_0000 <= CeilDiv(a, PD_T) < 0x8000_0000
    ensures 1 <= CeilDiv(a, PD_T) <= PD_MAX_K <==> 1 <= a <= MAX_FILE_SIZE
    ensures 1 <= a <= MAX_FILE_SIZE ==> CeilDiv(a, PD_T) == CeilQuot(a, PD_T)
  {
    Int32Value(a + PD_T - 1);
  }

  /** param_deriv; None stands for the failed assertion that there is one block. */
  function DeriveParams(fileSize: int): Option<CodingParams>
    requires -0x8000_0000 <= fileSize < 0x8000_0000
  {
    CeilDivRange(fileSize);
    var n := CeilDiv(fileSize, PD_T);
    var nCb := CeilDiv(n, PD_MAX_K);
    if nCb != 1 then None else (OneBlock(n); Some(Partition(n, nCb, PD_T)))
  }

  // ----- partition arithmetic, for any number of symbols and blocks

  lemma {:induction false} SymsBeforeClosed(p: CodingParams, cb: nat)
    ensures p.SymsBefore(cb) ==
            if cb <= p.nLarge then cb * p.KLarge
            else p.nLarge * p.KLarge + (cb - p.nLarge) * (p.KLarge - 1)
  {
    if cb > 0 {
      SymsBeforeClosed(p, cb - 1);
      if cb > p.nLarge {
        assert (cb - p.nLarge) * (p.KLarge - 1)
            == (cb - 1 - p.nLarge) * (p.KLarge - 1) + (p.KLarge - 1);
      } else {
        assert cb * p.KLarge == (cb - 1) * p.KLarge + p.KLarge;
      }
    }
  }

  lemma PartitionSums(n: nat, nCb: nat, t: nat)
    requires nCb > 0
    ensures var p := Partition(n, nCb, t);
            && 1 <= p.nLarge <= nCb
            && p.KLarge * p.nLarge + (p.KLarge - 1) * (nCb - p.nLarge) == n
            && p.SymsBefore(nCb) == n
  {
    var p := Partition(n, nCb, t);
    SymsBeforeClosed(p, nCb);
    assert (p.KLarge - 1) * nCb == p.KLarge * nCb - nCb;
    assert p.KLarge * p.nLarge + p.KLarge * (nCb - p.nLarge) == p.KLarge * nCb;
    assert (p.KLarge - 1) * (nCb - p.nLarge) == p.KLarge * (nCb - p.nLarge) - (nCb - p.nLarge);
  }

  /** No block is empty when there are at least as many symbols as blocks. */
  lemma PartitionValid(fileLen: nat, nCb: nat, t: nat)
    requires t > 0 && fileLen > 0
    requires 0 < nCb <= CeilQuot(fileLen, t)
    ensures Partition(CeilQuot(fileLen, t), nCb, t).Valid(fileLen)
  {
    var n := CeilQuot(fileLen, t);
    var p := Partition(n, nCb, t);
    PartitionSums(n, nCb, t);
    assert (n - 1) * t == n * t - t;
    SpanIsProduct(n, t);
    if p.KLarge == 1 {
      assert p.KLarge * p.nLarge == p.nLarge && (p.KLarge - 1) * (nCb - p.nLarge) == 0;
    }
  }

  /** The block sizes of Partition[I, J], section 4.4.1.2 of RFC 6330. */
  function Rfc6330Partition(i: nat, j: nat): seq<int>
    requires j > 0
  {
    var il := CeilQuot(i, j);
    var ib := i / j;
    var jl := i - ib * j;
    seq(j, k => if k < jl then il else ib)
  }

  lemma PartitionIsRfc6330(n: nat, nCb: nat, t: nat)
    requires nCb > 0
    ensures var p := Partition(n, nCb, t);
            seq(nCb, k requires k >= 0 => p.BlockK(k)) == Rfc6330Partition(n, nCb)
  {
    var q, r := n / nCb, n % nCb;
    assert n == q * nCb + r;
    var il := CeilQuot(n, nCb);
    CeilOfQuotient(n, nCb);
    assert (q + 1) * nCb == q * nCb + nCb;
  }

  lemma PositiveFactor(x: int, d: nat)
    requires x * d > 0
    ensures x > 0
  {
  }

  lemma CeilUnique(n: nat, d: nat, c: int, e: int)
    requires d > 0
    requires (c - 1) * d < n <= c * d
    requires (e - 1) * d < n <= e * d
    ensures c == e
  {
    PositiveFactor(c - (e - 1), d) by { assert (c - (e - 1)) * d == c * d - (e - 1) * d; }
    PositiveFactor(e - (c - 1), d) by { assert (e - (c - 1)) * d == e * d - (c - 1) * d; }
  }

  lemma CeilOfQuotient(n: nat, d: nat)
    requires d > 0
    ensures CeilQuot(n, d) == n / d + (if n % d == 0 then 0 else 1)
  {
    var q, r := n / d, n % d;
    assert n == q * d + r;
    var e := if r == 0 then q else q + 1;
    assert (q - 1) * d == q * d - d && (q + 1) * d == q * d + d;
    CeilUnique(n, d, CeilQuot(n, d), e);
  }

  // ----- which file sizes are accepted

  /** A 32-bit transport object size, converted to int, passes param_deriv exactly
      when it is between 1 and 51,200,000. */
  lemma AcceptedSizes(tos: UInt32)
    ensures DeriveParams(Int32(tos)).Some? <==> 1 <= tos <= MAX_FILE_SIZE
    ensures MAX_FILE_SIZE == 51_200_000
  {
    Int32Value(tos);
    var size := Int32(tos);
    CeilDivRange(size);
    OneBlock(CeilDiv(size, PD_T));
  }

  /** What an accepted size gives: one code block holding all the symbols. */
  lemma AcceptedParams(tos: UInt32)
    requires 1 <= tos <= MAX_FILE_SIZE
    ensures DeriveParams(Int32(tos)).Some?
    ensures var p := DeriveParams(Int32(tos)).value;
            && p.Valid(tos)
            && p.T == PD_T == 1024 && p.nCb == p.nLarge == 1
            && 1 <= p.KLarge == p.nSrcSymTot <= PD_MAX_K
  {
    AcceptedSizes(tos);
    CeilDivRange(tos);
    var n := CeilQuot(tos, PD_T);
    Int32Value(tos);
    PartitionValid(tos, 1, PD_T);
    PartitionSums(n, 1, PD_T);
    CeilUnique(n, 1, CeilQuot(n, 1), n);
  }
}
