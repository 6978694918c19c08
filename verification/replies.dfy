/** `Reply` and its two conversions for linux/x86_64: a failed syscall is
    reported in-band, as the negated errno stored in `ret[0]`, so any
    `ret[0]` among the top 4095 words reads as an error. */
module Replies {
  import opened RustCore
  import opened Registers

  /** `[Register<usize>; 2]`: the return value registers. */
  type Ret = s: seq<Word> | |s| == 2 witness [Zero, Zero]

  /** A reply: two result registers and a reserved error register. */
  datatype Reply = Reply(ret: Ret, err: Word)

  /** `Result<[Register<usize>; 2], libc::c_int>`. */
  type SyscallResult = Result<Ret, CInt>

  /** The largest errno the in-band encoding can carry. */
  const MaxErrno: int := 4095

  /** `-4096isize as usize`, i.e. 2^64 - 4096: the largest `ret[0]` that
      still reads as success (the comparison is strict). */
  const ErrorThreshold: Word := AsUsize(-4096)

  /** `From<Result<..>> for Reply`: success values are stored verbatim;
      an error `e` is stored as `(-e) as usize` in `ret[0]`; every other
      register is zero. */
  function FromResult(res: SyscallResult): (rep: Reply)
    ensures rep.err == Zero
    ensures res.Ok? ==> rep.ret == res.value
    ensures res.Err? ==> rep.ret[1] == Zero
    ensures res.Err? && res.error != CIntMin ==> rep.ret[0] == (WordModulus - res.error) % WordModulus
    ensures res.Err? && res.error == CIntMin ==> rep.ret[0] == WordModulus + CIntMin
  {
    match res
    case Ok(val) => Reply(val, Zero)
    case Err(val) => Reply([AsUsize(WrappingNeg(val)), Zero], Zero)
  }

  /** `From<Reply> for Result<..>`: `ret[0]` above the threshold is the
      negated errno, recovered through a truncating `as c_int` cast;
      anything else is success carrying both result registers. */
  function ToResult(rep: Reply): (res: SyscallResult)
    ensures res.Err? <==> rep.ret[0] > WordModulus - 4096
    ensures res.Err? ==> res.error == WordModulus - rep.ret[0]
    ensures res.Err? ==> 1 <= res.error <= MaxErrno
    ensures res.Ok? ==> res.value == rep.ret
  {
    var reg := rep.ret[0];
    if reg > ErrorThreshold then
      TruncateTopWord(reg);
      Err(WrappingNeg(AsCInt(reg)))
    else
      Ok(rep.ret)
  }

  /** The results that survive the trip through a `Reply`: successes whose
      first word lies below the error band, and errnos 1 to 4095. */
  predicate Representable(res: SyscallResult) {
    match res
    case Ok(v) => v[0] <= WordModulus - 4096
    case Err(e) => 1 <= e <= MaxErrno
  }

  /** Decoding undoes encoding exactly on the representable results. */
  lemma RoundTripIff(res: SyscallResult)
    ensures ToResult(FromResult(res)) == res <==> Representable(res)
  {
  }

  /** Every errno from 1 to 4095 comes back unchanged. */
  lemma ErrRoundTrip(e: CInt)
    requires 1 <= e <= MaxErrno
    ensures ToResult(FromResult(Err(e))) == Err(e)
  {
  }

  /** Every success whose first word is at most 2^64 - 4096 comes back unchanged. */
  lemma OkRoundTrip(v: Ret)
    requires v[0] <= WordModulus - 4096
    ensures ToResult(FromResult(Ok(v))) == Ok(v)
  {
  }

  /** Encoding undoes decoding exactly on the replies the host would produce:
      the error register is zero and an error reply has a zero `ret[1]`. */
  lemma EncodeDecodeIff(rep: Reply)
    ensures FromResult(ToResult(rep)) == rep
        <==> rep.err == Zero && (rep.ret[0] > WordModulus - 4096 ==> rep.ret[1] == Zero)
  {
  }

  /** The threshold itself reads as success; one above it is errno 4095. */
  lemma ErrorBoundary(hi: Word)
    ensures ToResult(Reply([WordModulus - 4096, hi], Zero)) == Ok([WordModulus - 4096, hi])
    ensures ToResult(Reply([WordModulus - 4095, hi], Zero)) == Err(MaxErrno)
  {
  }

  /** `Err(0)` encodes as an all-zero reply, which reads as success. */
  lemma ErrZeroReadsOk()
    ensures FromResult(Err(0)) == Reply([Zero, Zero], Zero)
    ensures ToResult(FromResult(Err(0))) == Ok([Zero, Zero])
  {
  }

  /** An errno of 4096 or more is stored below the band and reads as a
      success whose first word is 2^64 - e. */
  lemma LargeErrnoReadsOk(e: CInt)
    requires e > MaxErrno
    ensures ToResult(FromResult(Err(e))) == Ok([WordModulus - e, Zero])
  {
  }

  /** A negative error code is stored as a small (or, for the minimum, a
      mid-range) word, outside the band, and reads as a success. */
  lemma NegativeErrnoReadsOk(e: CInt)
    requires e < 0
    ensures e != CIntMin ==> ToResult(FromResult(Err(e))) == Ok([-e, Zero])
    ensures e == CIntMin ==> ToResult(FromResult(Err(e))) == Ok([WordModulus + CIntMin, Zero])
  {
  }

  /** A genuine success whose first word falls in the band is misread as an
      error: the encoding cannot tell the two apart. */
  lemma BandSuccessReadsErr(v: Ret)
    requires v[0] > WordModulus - 4096
    ensures ToResult(FromResult(Ok(v))) == Err(WordModulus - v[0])
  {
  }

  /** `EBADF` (9 on Linux) as in the `close(-1)` scenario: encoded as
      2^64 - 9 in `ret[0]`, and decoded back to `EBADF`. */
  lemma EbadfConversions()
    ensures FromResult(Err(9)) == Reply([WordModulus - 9, Zero], Zero)
    ensures ToResult(FromResult(Err(9))) == Err(9)
  {
  }
}
