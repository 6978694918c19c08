# sallyport wire format, modelled in Dafny

sallyport is the shared record through which enarx's in-enclave microkernel
asks the untrusted host to perform a system call on its behalf. The guest
writes a `Request` into a page-sized `Block`, the host overwrites the same
storage with a `Reply`, and the guest reads the result back. This project
models the pure part of that protocol in `sallyport/src/lib.rs`:

- `Request::new`, which packs a syscall number and up to seven argument
  registers into the fixed `Request` record (`requests.dfy`);
- the linux/x86_64 conversions between `Reply` and
  `Result<[Register<usize>; 2], c_int>`, which carry an errno in-band as a
  negated value in `ret[0]` (`replies.dfy`);
- the `#[repr(C)]` sizes of `Request`, `Reply`, the `Message` union and
  `Block`, and `Block::buf_capacity`, which together make a block exactly
  one page (`layout.dfy`, `blocks.dfy`).

`registers.dfy` models the machine types: `Register<usize>` is a 64-bit
unsigned word, `libc::c_int` a 32-bit signed integer. It also writes out the
casts the conversions rely on. `x as usize` from a signed type is the
two's-complement pattern, sign-extended. `w as c_int` keeps the low 32 bits.
`-x` on `c_int` wraps at `i32::MIN`. `rust_core.dfy` holds `Option` and
`Result`.

The layout part is parametric. It takes a register width `w` and a page size
`page`, and it instantiates them at x86_64's 8-byte `usize` and 4 KiB
`Page::size()`. `Layout.SizeOf` follows the `repr(C)` rules. Fields are
placed in order, each at its alignment. A struct or union is as aligned as
its most aligned member, and its size is rounded up to that alignment.

Two consequences of the code are worth stating plainly:

- A success value survives the round trip through a `Reply` only when its
  first word is at most `2^64 - 4096` (`Replies.RoundTripIff`). A genuine
  success whose first word lies in the error band decodes as an error
  (`Replies.BandSuccessReadsErr`).
- `Err` carries the positive errno (`EBADF`, 9), and the conversion from
  `Result` negates it when it stores it (lib.rs:99).

## Model

| member | source | states |
|---|---|---|
| Registers.AsUsize | sallyport/src/lib.rs:99 | a signed value cast to `usize` is itself when non-negative and `2^64 + x` when negative |
| Registers.AsCInt | sallyport/src/lib.rs:112 | the `as c_int` truncation agrees with the word modulo 2^32 |
| Registers.WrappingNeg | sallyport/src/lib.rs:99 | `-val` on `c_int` is the additive inverse modulo 2^32 |
| Registers.WrappingNegExact | sallyport/src/lib.rs:99 | negation is exact for every `c_int` except `i32::MIN`, where it wraps |
| Registers.TruncateSignExtended | sallyport/src/lib.rs:99-112 | sign-extending a `c_int` to `usize` and truncating back returns it unchanged |
| Registers.TruncateTopWord | sallyport/src/lib.rs:112 | a word in the top 2^31 values truncates to the negative `c_int` `w - 2^64` |
| Requests.Get | sallyport/src/lib.rs:44-50 | `arg.get(i)` yields a value exactly when `i` is in bounds, and that value is `arg[i]` |
| Requests.New | sallyport/src/lib.rs:40-53 | `num` is kept; `arg[i] == args[i]` for every `i < min(7, len)`; the remaining slots up to 7 are zero |
| Requests.NewIsPadded | sallyport/src/lib.rs:43-51 | the argument registers equal an independent definition: the first seven arguments, zero-padded to seven |
| Requests.NewEqualIff | sallyport/src/lib.rs:40-53 | two constructed requests are equal if and only if their numbers and padded argument lists are equal |
| Requests.NewDropsExtraArgs | sallyport/src/lib.rs:33-34 | arguments past the seventh are silently dropped: appending any of them leaves the request unchanged |
| Requests.NewIgnoresTrailingZeros | sallyport/src/lib.rs:44-50 | explicitly passed trailing zero arguments give the same request as omitting them |
| Requests.NewInjective | sallyport/src/lib.rs:43-51 | argument lists of equal length up to seven that build the same request are equal, so nothing within the seven slots is lost |
| Requests.NewOfFields | sallyport/src/lib.rs:25-53 | every request is the one `Request::new` builds from its own number and arguments |
| Requests.CloseBadFdRequest | sallyport/src/lib.rs:185 | `Request::new(SYS_close, &[-1isize as usize])` has number 3, an all-ones first argument and six zero arguments |
| Replies.FromResult | sallyport/src/lib.rs:90-103 | `Ok(v)` is stored verbatim with `err == 0`; `Err(e)` stores `(2^64 - e) mod 2^64` in `ret[0]` (`2^64 - 2^31` for `i32::MIN`), zero in `ret[1]` and `err` |
| Replies.ToResult | sallyport/src/lib.rs:107-116 | the result is an error exactly when `ret[0] > 2^64 - 4096`; the error is then `2^64 - ret[0]`, between 1 and 4095, despite the truncating cast; otherwise it is `Ok` of both result registers |
| Replies.RoundTripIff | sallyport/src/lib.rs:89-117 | decoding the encoding of a result gives it back if and only if it is an errno from 1 to 4095 or a success with `ret[0] <= 2^64 - 4096` |
| Replies.ErrRoundTrip | sallyport/src/lib.rs:98-112 | every errno from 1 to 4095 survives encoding and decoding |
| Replies.OkRoundTrip | sallyport/src/lib.rs:94-114 | every success with `ret[0] <= 2^64 - 4096` survives encoding and decoding |
| Replies.EncodeDecodeIff | sallyport/src/lib.rs:89-117 | re-encoding a decoded reply gives it back if and only if `err` is zero and an in-band reply has a zero `ret[1]` |
| Replies.ErrorBoundary | sallyport/src/lib.rs:111 | the comparison is strict: `ret[0] == 2^64 - 4096` decodes as success and `2^64 - 4095` as errno 4095 |
| Replies.ErrZeroReadsOk | sallyport/src/lib.rs:98-115 | `Err(0)` encodes to an all-zero reply, which decodes as `Ok([0, 0])` |
| Replies.LargeErrnoReadsOk | sallyport/src/lib.rs:98-115 | an error code of 4096 or more encodes below the band and decodes as `Ok([2^64 - e, 0])` |
| Replies.NegativeErrnoReadsOk | sallyport/src/lib.rs:98-115 | a negative error code lands outside the band and decodes as success: `-e`, or `2^64 - 2^31` for `i32::MIN` |
| Replies.BandSuccessReadsErr | sallyport/src/lib.rs:94-115 | a genuine success whose `ret[0]` lies in the band decodes as `Err(2^64 - ret[0])` |
| Replies.EbadfConversions | sallyport/src/lib.rs:187-188 | `Err(EBADF)` encodes to `ret[0] == 2^64 - 9` and decodes back to `EBADF` |
| RustCore.Option.UnwrapOr | sallyport/src/lib.rs:44-50 | the carried value when present, otherwise the given default; with the zero register as default this is `unwrap_or_default` |
| Layout.AlignOf | sallyport/src/lib.rs:23-35 | `align_of` under `repr(C)`: a scalar's own alignment, an array's element alignment, a struct's or union's largest member alignment |
| Layout.SizeOf | sallyport/src/lib.rs:151-155 | `size_of` under `repr(C)`: fields in order at their alignments, a struct or union rounded up to its alignment, an array as its element repeated |
| Layout.MaxAlign | sallyport/src/lib.rs:119-128 | the alignment of a struct or union is at least each of its members' alignments, and 1 when there are none |
| Layout.MaxAlignAttained | sallyport/src/lib.rs:119-128 | that alignment is attained: it is the alignment of one of the members |
| Layout.MaxSize | sallyport/src/lib.rs:119-128 | the unpadded size of a union is at least each of its variants' sizes, and 0 when there are none |
| Layout.MaxSizeAttained | sallyport/src/lib.rs:119-128 | that size is attained: it is the size of one of the variants |
| Blocks.RequestTy | sallyport/src/lib.rs:23-35 | `Request` is a `repr(C)` struct of one register followed by an array of seven registers |
| Blocks.ReplyTy | sallyport/src/lib.rs:82-87 | `Reply` is a `repr(C)` struct of an array of two registers followed by one register |
| Blocks.MessageTy | sallyport/src/lib.rs:119-128 | `Message` is a `repr(C)` union of `Request` and `Reply` |
| Blocks.BlockTy | sallyport/src/lib.rs:137-149 | `Block` is a `repr(C)` struct of a `Message` followed by `buf_capacity()` bytes |
| Layout.FieldOffset | sallyport/src/lib.rs:137-149 | a field's offset is the first offset after all earlier fields that is aligned to the field, and the field ends where the next layout step starts |
| Layout.PairLayout | sallyport/src/lib.rs:137-149 | in a two-field struct the first field sits at 0 and the second at the first suitably aligned offset after it |
| Layout.FieldsEndMonotone | sallyport/src/lib.rs:137-149 | laying out more fields never moves the end of the struct backwards |
| Layout.FieldsInOrder | sallyport/src/lib.rs:137-149 | consecutive fields do not overlap |
| Layout.FieldWithinStruct | sallyport/src/lib.rs:23-35 | every field of a `repr(C)` struct lies inside the struct |
| Layout.VariantWithinUnion | sallyport/src/lib.rs:119-128 | every variant of a `repr(C)` union fits in the union's storage |
| Blocks.RequestSize | sallyport/src/lib.rs:162-165 | `size_of::<Request>() == 8 * size_of::<usize>()`, aligned to one word |
| Blocks.ReplySize | sallyport/src/lib.rs:167-170 | `size_of::<Reply>() == 3 * size_of::<usize>()`, aligned to one word |
| Blocks.MessageSize | sallyport/src/lib.rs:172-175 | `size_of::<Message>() == 8 * size_of::<usize>()`, the size of its larger variant |
| Blocks.BufCapacity | sallyport/src/lib.rs:151-155 | the buffer capacity is the page size minus eight words |
| Blocks.BlockLayout | sallyport/src/lib.rs:139-155 | `buf` starts right after the eight-word message and ends exactly at the page boundary; the block's size is the page size rounded up to a word |
| Blocks.BlockIsOnePageIff | sallyport/src/lib.rs:177-180 | `size_of::<Block>() == page` holds if and only if the page size is a whole number of words |
| Blocks.X86_64Sizes | sallyport/src/lib.rs:148-180 | on x86_64 with 4 KiB pages: request 64, reply 24, message 64, buffer 4032 and block 4096 bytes |

## Left out

- `Request::syscall` and the `sallyport_syscall` foreign function (lib.rs:55-68): a call across the trust boundary. Nothing about it can be seen, so the host's reply is left unmodelled.
- The live syscall tests (lib.rs:183-201). Their outcomes, such as `dup(0)` returning 3, depend on the host's descriptor table. The pure `EBADF` conversions they assert are kept as `Replies.EbadfConversions`, and the `close(-1)` request as `Requests.CloseBadFdRequest`.
- The untagged `union Message` overlay (lib.rs:119-128): byte-level aliasing between the `req` and `rep` views is not modelled. Only the union's size and the fact that both variants fit are.
- The ppc64 `cr0.SO` error convention: it appears only in a comment (lib.rs:77-81), with no code behind it.
- `memory::Register` and `memory::Page`: these live in another crate, which is not part of this model. A register is a 64-bit word; the page size is a parameter, with 4096 for x86_64.
- The `Into<Register<usize>>` conversion for `num` (lib.rs:40-42): `num` is taken to be a word already.
- Registers.WrappingNeg: `-val` overflows for `val == i32::MIN`. The model uses wrap-around, which is what a build without overflow checks does. A build with overflow checks panics on that input instead, and that panic is not modelled.
- Replies.FromResult: encoding `Err(i32::MIN)` negates `i32::MIN` (lib.rs:99). The model wraps, as a build without overflow checks does (see `Registers.WrappingNeg`); a build with overflow checks panics there, and that panic is not modelled.
- Request and reply phases of a block (idle, request written, reply written): the code has no such state, so the caller-side discipline is not modelled.
