/** `Request`: the register record the microkernel fills in to ask the host
    for a service, such as a proxied system call. */
module Requests {
  import opened RustCore
  import opened Registers

  /** At most 7 syscall arguments can be carried. */
  const ArgCount: nat := 7

  /** `[Register<usize>; 7]`. */
  type Args = s: seq<Word> | |s| == ArgCount witness seq(ArgCount, _ => Zero)

  /** A request: the syscall number and the seven argument registers. */
  datatype Request = Request(num: Word, arg: Args)

  /** `<[T]>::get`: the element at index `i`, or nothing past the end. */
  function Get(args: seq<Word>, i: nat): (o: Option<Word>)
    ensures o.Some? <==> i < |args|
    ensures o.Some? ==> o.value == args[i]
  {
    if i < |args| then Some(args[i]) else None
  }

  /** `Request::new`: takes the syscall number and as many of the given
      arguments as fit; absent positions are zero and arguments past the
      seventh are dropped without complaint. */
  function New(num: Word, args: seq<Word>): (r: Request)
    ensures r.num == num
    ensures forall i :: 0 <= i < ArgCount && i < |args| ==> r.arg[i] == args[i]
    ensures forall i :: |args| <= i < ArgCount ==> r.arg[i] == Zero
  {
    Request(num, [
      Get(args, 0).UnwrapOr(Zero),
      Get(args, 1).UnwrapOr(Zero),
      Get(args, 2).UnwrapOr(Zero),
      Get(args, 3).UnwrapOr(Zero),
      Get(args, 4).UnwrapOr(Zero),
      Get(args, 5).UnwrapOr(Zero),
      Get(args, 6).UnwrapOr(Zero)
    ])
  }

  /** The argument registers as an independent definition: the first seven
      arguments, padded with zeros to exactly seven. */
  function Padded(args: seq<Word>): (p: Args)
  {
    if |args| >= ArgCount then args[..ArgCount]
    else args + seq(ArgCount - |args|, _ => Zero)
  }

  /** `Request::new` lays out the arguments exactly as `Padded` does. */
  lemma NewIsPadded(num: Word, args: seq<Word>)
    ensures New(num, args) == Request(num, Padded(args))
  {
  }

  /** Two requests built by `Request::new` are equal exactly when the numbers
      agree and the padded argument lists agree. */
  lemma NewEqualIff(num1: Word, args1: seq<Word>, num2: Word, args2: seq<Word>)
    ensures New(num1, args1) == New(num2, args2)
        <==> num1 == num2 && Padded(args1) == Padded(args2)
  {
    NewIsPadded(num1, args1);
    NewIsPadded(num2, args2);
  }

  /** Only the first seven arguments matter: the rest are dropped, not rejected. */
  lemma NewDropsExtraArgs(num: Word, args: seq<Word>, extra: seq<Word>)
    requires |args| >= ArgCount
    ensures New(num, args + extra) == New(num, args)
    ensures New(num, args) == New(num, args[..ArgCount])
  {
  }

  /** Trailing zero arguments are indistinguishable from absent ones. */
  lemma NewIgnoresTrailingZeros(num: Word, args: seq<Word>, k: nat)
    requires |args| + k <= ArgCount
    ensures New(num, args + seq(k, _ => Zero)) == New(num, args)
  {
  }

  /** Within the seven slots nothing is lost: two argument lists of the same
      length (at most seven) give the same request only if they are equal. */
  lemma NewInjective(num: Word, args1: seq<Word>, args2: seq<Word>)
    requires |args1| == |args2| <= ArgCount
    requires New(num, args1) == New(num, args2)
    ensures args1 == args2
  {
  }

  /** Every request is the one `Request::new` builds from its own fields. */
  lemma NewOfFields(r: Request)
    ensures New(r.num, r.arg) == r
  {
  }

  /** The request of the `close(-1)` scenario: `SYS_close` is 3 on
      linux/x86_64 and `-1isize as usize` is the all-ones word. */
  lemma CloseBadFdRequest()
    ensures New(3, [AsUsize(-1)]) == Request(3, [WordModulus - 1, 0, 0, 0, 0, 0, 0])
  {
  }
}
