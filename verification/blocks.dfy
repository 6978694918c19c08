/** Sizes of `Request`, `Reply`, the `Message` union and the page-sized
    `Block`, for a target whose `usize` is `w` bytes wide and whose page is
    `page` bytes long. */
module Blocks {
  import opened Layout
  import Requests

  /** `Register<usize>`: one machine word. */
  function RegisterTy(w: Pos): Ty {
    Prim(w, w)
  }

  /** `u8`. */
  const ByteTy: Ty := Prim(1, 1)

  /** `struct Request { num: Register<usize>, arg: [Register<usize>; 7] }`. */
  function RequestTy(w: Pos): Ty {
    Struct([RegisterTy(w), Array(RegisterTy(w), Requests.ArgCount)])
  }

  /** `struct Reply { ret: [Register<usize>; 2], err: Register<usize> }`. */
  function ReplyTy(w: Pos): Ty {
    Struct([Array(RegisterTy(w), 2), RegisterTy(w)])
  }

  /** `union Message { req: Request, rep: Reply }`. */
  function MessageTy(w: Pos): Ty {
    Union([RequestTy(w), ReplyTy(w)])
  }

  /** A request is eight words: the number and seven arguments, unpadded. */
  lemma RequestSize(w: Pos)
    ensures SizeOf(RequestTy(w)) == 8 * w
    ensures AlignOf(RequestTy(w)) == w
  {
    PairLayout(RegisterTy(w), Array(RegisterTy(w), Requests.ArgCount));
    MultipleIsAligned(1, w);
    MultipleIsAligned(8, w);
  }

  /** A reply is three words: two results and the error word. */
  lemma ReplySize(w: Pos)
    ensures SizeOf(ReplyTy(w)) == 3 * w
    ensures AlignOf(ReplyTy(w)) == w
  {
    PairLayout(Array(RegisterTy(w), 2), RegisterTy(w));
    MultipleIsAligned(2, w);
    MultipleIsAligned(3, w);
  }

  /** The message union is exactly as large as its larger variant, the
      request: eight words. */
  lemma MessageSize(w: Pos)
    ensures SizeOf(MessageTy(w)) == 8 * w
    ensures AlignOf(MessageTy(w)) == w
  {
    RequestSize(w);
    ReplySize(w);
    PairLayout(RequestTy(w), ReplyTy(w));
    MultipleIsAligned(8, w);
  }

  /** `Block::buf_capacity`: what is left of a page after the message.
      The subtraction is on `usize` in a constant, so a page smaller than
      the message (eight words, by `MessageSize`) does not build. */
  function BufCapacity(w: Pos, page: nat): (cap: nat)
    requires page >= 8 * w
    ensures cap == page - 8 * w
    ensures cap + SizeOf(MessageTy(w)) == page
  {
    MessageSize(w);
    page - SizeOf(MessageTy(w))
  }

  /** `struct Block { msg: Message, buf: [u8; Block::buf_capacity()] }`. */
  function BlockTy(w: Pos, page: nat): Ty
    requires page >= 8 * w
  {
    Struct([MessageTy(w), Array(ByteTy, BufCapacity(w, page))])
  }

  /** The buffer starts right after the message and runs to the end of the
      page; the block is the page rounded up to the word alignment. */
  lemma BlockLayout(w: Pos, page: nat)
    requires page >= 8 * w
    ensures FieldOffset(BlockTy(w, page).fields, 1) == 8 * w
    ensures FieldOffset(BlockTy(w, page).fields, 1) + BufCapacity(w, page) == page
    ensures SizeOf(BlockTy(w, page)) == RoundUp(page, w)
  {
    MessageSize(w);
    PairLayout(MessageTy(w), Array(ByteTy, BufCapacity(w, page)));
    MultipleIsAligned(8, w);
  }

  /** A block is exactly one page precisely when the page size is a whole
      number of words; otherwise trailing padding makes it larger. */
  lemma BlockIsOnePageIff(w: Pos, page: nat)
    requires page >= 8 * w
    ensures SizeOf(BlockTy(w, page)) == page <==> page % w == 0
  {
    BlockLayout(w, page);
  }

  /** `usize` is 8 bytes wide on x86_64. */
  const X86_64Word: Pos := 8

  /** `Page::size()`: 4 KiB. */
  const PageSize: nat := 4096

  /** On x86_64 with 4 KiB pages: 64-byte request, 24-byte reply, 64-byte
      message, a 4032-byte buffer and a block of exactly one page. */
  lemma X86_64Sizes()
    ensures SizeOf(RequestTy(X86_64Word)) == 64
    ensures SizeOf(ReplyTy(X86_64Word)) == 24
    ensures SizeOf(MessageTy(X86_64Word)) == 64
    ensures BufCapacity(X86_64Word, PageSize) == 4032
    ensures SizeOf(BlockTy(X86_64Word, PageSize)) == PageSize
  {
    RequestSize(X86_64Word);
    ReplySize(X86_64Word);
    BlockIsOnePageIff(X86_64Word, PageSize);
  }
}
