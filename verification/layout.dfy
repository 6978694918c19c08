/** The `#[repr(C)]` layout rules that fix `size_of` for the sallyport
    records: fields are placed in declaration order, each at the next offset
    that is a multiple of its alignment; a struct or union is as aligned as
    its most aligned member and its size is rounded up to that alignment;
    an array is its element repeated. */
module Layout {

  /** A positive integer: alignments are never zero. */
  type Pos = x: int | x >= 1 witness 1

  /** The shape of a Rust type, as far as its layout is concerned. */
  datatype Ty =
    | Prim(size: nat, align: Pos)   // a scalar such as `u8` or `usize`
    | Array(elem: Ty, len: nat)     // `[T; N]`
    | Struct(fields: seq<Ty>)       // `#[repr(C)] struct`
    | Union(variants: seq<Ty>)      // `#[repr(C)] union`

  lemma MulSign(d: int, a: Pos)
    ensures d >= 1 ==> d * a >= a
    ensures d <= -1 ==> d * a + a <= 0
  {
  }

  /** Euclidean division is determined by quotient and remainder. */
  lemma {:induction false} DivModUnique(x: int, a: Pos, q: int, r: int)
    requires x == q * a + r && 0 <= r < a
    ensures x / a == q && x % a == r
  {
    var q', r' := x / a, x % a;
    assert (q - q') * a == r' - r;
    MulSign(q - q', a);
  }

  /** Every multiple of `a` is aligned to `a`. */
  lemma MultipleIsAligned(k: nat, a: Pos)
    ensures (k * a) % a == 0
  {
    DivModUnique(k * a, a, k, 0);
  }

  /** The least multiple of `a` that is at least `x`. */
  function RoundUp(x: nat, a: Pos): (r: nat)
    ensures x <= r < x + a
    ensures r % a == 0
    ensures x % a == 0 ==> r == x
  {
    if x % a == 0 then x
    else
      var r := x + (a - x % a);
      DivModUnique(r, a, x / a + 1, 0);
      r
  }

  function Max(x: int, y: int): int {
    if x < y then y else x
  }

  /** `align_of`. */
  function AlignOf(t: Ty): Pos
    decreases t
  {
    match t
    case Prim(_, a) => a
    case Array(e, _) => AlignOf(e)
    case Struct(fs) => MaxAlign(fs)
    case Union(vs) => MaxAlign(vs)
  }

  /** The largest alignment among `ts`, and 1 when there is none. */
  function MaxAlign(ts: seq<Ty>): (a: Pos)
    ensures forall i :: 0 <= i < |ts| ==> AlignOf(ts[i]) <= a
    ensures ts == [] ==> a == 1
    decreases ts
  {
    if ts == [] then 1 else Max(MaxAlign(ts[..|ts| - 1]), AlignOf(ts[|ts| - 1]))
  }

  /** `size_of`. */
  function SizeOf(t: Ty): nat
    decreases t
  {
    match t
    case Prim(s, _) => s
    case Array(e, n) => n * SizeOf(e)
    case Struct(fs) => RoundUp(FieldsEnd(fs), MaxAlign(fs))
    case Union(vs) => RoundUp(MaxSize(vs), MaxAlign(vs))
  }

  /** The offset just past the last of `fs` when they are laid out in order
      from offset 0. */
  function FieldsEnd(fs: seq<Ty>): nat
    decreases fs
  {
    if fs == [] then 0
    else RoundUp(FieldsEnd(fs[..|fs| - 1]), AlignOf(fs[|fs| - 1])) + SizeOf(fs[|fs| - 1])
  }

  /** The largest size among `vs`, and 0 when there is none. */
  function MaxSize(vs: seq<Ty>): (s: nat)
    ensures forall i :: 0 <= i < |vs| ==> SizeOf(vs[i]) <= s
    ensures vs == [] ==> s == 0
    decreases vs
  {
    if vs == [] then 0 else Max(MaxSize(vs[..|vs| - 1]), SizeOf(vs[|vs| - 1]))
  }

  /** The largest alignment is the alignment of one of the members. */
  lemma {:induction false} MaxAlignAttained(ts: seq<Ty>)
    requires ts != []
    ensures exists i :: 0 <= i < |ts| && MaxAlign(ts) == AlignOf(ts[i])
  {
    var n := |ts| - 1;
    if n > 0 && MaxAlign(ts) == MaxAlign(ts[..n]) {
      MaxAlignAttained(ts[..n]);
      var i :| 0 <= i < n && MaxAlign(ts[..n]) == AlignOf(ts[..n][i]);
      assert ts[..n][i] == ts[i];
    } else {
      assert MaxAlign(ts) == AlignOf(ts[n]);
    }
  }

  /** The largest size is the size of one of the variants. */
  lemma {:induction false} MaxSizeAttained(vs: seq<Ty>)
    requires vs != []
    ensures exists i :: 0 <= i < |vs| && MaxSize(vs) == SizeOf(vs[i])
  {
    var n := |vs| - 1;
    if n > 0 && MaxSize(vs) == MaxSize(vs[..n]) {
      MaxSizeAttained(vs[..n]);
      var i :| 0 <= i < n && MaxSize(vs[..n]) == SizeOf(vs[..n][i]);
      assert vs[..n][i] == vs[i];
    } else {
      assert MaxSize(vs) == SizeOf(vs[n]);
    }
  }

  /** The offset of field `i` of a `#[repr(C)]` struct with fields `fs`. */
  function FieldOffset(fs: seq<Ty>, i: nat): (off: nat)
    requires i < |fs|
    ensures off % AlignOf(fs[i]) == 0
    ensures FieldsEnd(fs[..i]) <= off < FieldsEnd(fs[..i]) + AlignOf(fs[i])
    ensures off + SizeOf(fs[i]) == FieldsEnd(fs[..i + 1])
  {
    assert fs[..i + 1][..i] == fs[..i];
    RoundUp(FieldsEnd(fs[..i]), AlignOf(fs[i]))
  }

  /** A two-field struct: the first field at offset 0, the second at the
      first offset after it that suits its alignment. */
  lemma PairLayout(a: Ty, b: Ty)
    ensures FieldOffset([a, b], 0) == 0
    ensures FieldOffset([a, b], 1) == RoundUp(SizeOf(a), AlignOf(b))
    ensures FieldsEnd([a, b]) == FieldOffset([a, b], 1) + SizeOf(b)
    ensures MaxAlign([a, b]) == Max(AlignOf(a), AlignOf(b))
    ensures MaxSize([a, b]) == Max(SizeOf(a), SizeOf(b))
  {
    var fs := [a, b];
    assert [a][..0] == [];
    assert MaxAlign([a]) == AlignOf(a);
    assert MaxSize([a]) == SizeOf(a);
    assert FieldsEnd([a]) == SizeOf(a);
    assert fs[..1] == [a] && fs[..2] == fs;
  }

  /** Laying out more fields never moves the end backwards. */
  lemma {:induction false} FieldsEndMonotone(fs: seq<Ty>, i: nat, j: nat)
    requires i <= j <= |fs|
    ensures FieldsEnd(fs[..i]) <= FieldsEnd(fs[..j])
    decreases j - i
  {
    if i < j {
      FieldsEndMonotone(fs, i + 1, j);
      var _ := FieldOffset(fs, i);
    }
  }

  /** Fields do not overlap: each field ends no later than the next begins. */
  lemma FieldsInOrder(fs: seq<Ty>, i: nat)
    requires i + 1 < |fs|
    ensures FieldOffset(fs, i) + SizeOf(fs[i]) <= FieldOffset(fs, i + 1)
  {
  }

  /** Every field of a struct lies inside the struct. */
  lemma FieldWithinStruct(fs: seq<Ty>, i: nat)
    requires i < |fs|
    ensures FieldOffset(fs, i) + SizeOf(fs[i]) <= SizeOf(Struct(fs))
  {
    FieldsEndMonotone(fs, i + 1, |fs|);
    assert fs[..|fs|] == fs;
  }

  /** Every variant of a union fits in the union's storage. */
  lemma VariantWithinUnion(vs: seq<Ty>, i: nat)
    requires i < |vs|
    ensures SizeOf(vs[i]) <= SizeOf(Union(vs))
  {
  }
}
