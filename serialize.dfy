/**
 * The binary serialiser of toys/serialize/sl.h. A record is a sequence of
 * fields; a field's serializer gives its bytes (to_binary), tells whether
 * its size is fixed (try_static_size) and its alignment. The output is a
 * header (overall size, member count, type hash, the sizes of the
 * dynamically sized fields, padding to 16 bytes) followed by the fields at
 * aligned offsets. Alignments are powers of two and are stored by their
 * exponent; a size_t is an 8-byte little-endian word.
 */
module Serialize {
  import opened Wrappers
  import opened Bits
  import opened Primes

  newtype byte = x: int | 0 <= x < 256

  /** Every size_t is below 2^64. */
  const SizeLimit: nat := 0x1_0000_0000_0000_0000

  /** kConstexprValue: size_t(-1), the type hash of a constant evaluation. */
  const Sentinel: nat := SizeLimit - 1

  /** sizeof(size_t) and sizeof(serialize_header<>), three size_t words. */
  const WordSize: nat := 8
  const MetaSize: nat := 24

  /** kAlign = alignof(std::max_align_t) = 16 = 2^4. */
  const KAlignLog: nat := 4
  const KAlign: nat := 16

  lemma {:induction false} Pow2Of64()
    ensures Pow2(64) == SizeLimit
  {
    assert Pow2(1) == 2;
    Pow2Add(1, 1);
    assert Pow2(2) == 4;
    Pow2Add(2, 2);
    assert Pow2(4) == 16;
    Pow2Add(4, 4);
    assert Pow2(8) == 0x100;
    Pow2Add(8, 8);
    assert Pow2(16) == 0x1_0000;
    Pow2Add(16, 16);
    assert Pow2(32) == 0x1_0000_0000;
    Pow2Add(32, 32);
  }

  lemma {:induction false} Pow2OfAlign()
    ensures Pow2(KAlignLog) == KAlign
  {
    assert Pow2(1) == 2;
    Pow2Add(1, 1);
    assert Pow2(2) == 4;
    Pow2Add(2, 2);
  }

  // align_up

  /** align_up<2^k>(n): (n + 2^k - 1) & ~(2^k - 1) in size_t arithmetic. */
  function AlignUp(k: nat, n: nat): nat
    requires k < 64 && n < SizeLimit
  {
    Pow2Of64();
    Pow2Mono(k, 64);
    And((n + Pow2(k) - 1) % SizeLimit, SizeLimit - Pow2(k))
  }

  /** The least multiple of 2^k that is at least n. */
  function RoundUp(k: nat, n: nat): (r: nat)
    ensures r % Pow2(k) == 0 && n <= r < n + Pow2(k)
  {
    var a := Pow2(k);
    RoundUpLeast(a, n, (n + a - 1) / a);
    ((n + a - 1) / a) * a
  }

  lemma {:induction false} RoundUpLeast(a: nat, n: nat, q: nat)
    requires a > 0 && q == (n + a - 1) / a
    ensures (q * a) % a == 0 && n <= q * a < n + a
  {
    var x := n + a - 1;
    assert x == q * a + x % a;
    DivUnique(q * a, a, q, 0);
  }

  /** align_up is the least multiple of the (power of two) alignment that is
    * at least n, whenever n + 2^k does not wrap. */
  lemma {:induction false} AlignUpLeast(k: nat, n: nat)
    requires k < 64 && n + Pow2(k) <= SizeLimit
    ensures AlignUp(k, n) == RoundUp(k, n)
    ensures AlignUp(k, n) % Pow2(k) == 0 && n <= AlignUp(k, n) < n + Pow2(k)
  {
    var a := Pow2(k);
    AlignUpClears(k, n, n + a - 1);
    ClearedIsRoundUp(a, n + a - 1);
  }

  lemma {:induction false} AlignUpClears(k: nat, n: nat, x: nat)
    requires k < 64 && n + Pow2(k) <= SizeLimit && x == n + Pow2(k) - 1
    ensures AlignUp(k, n) == x - x % Pow2(k)
  {
    Pow2Of64();
    Pow2Mono(k, 64);
    var m: nat := SizeLimit - Pow2(k);
    AlignUpIsAnd(k, n, x, m);
    AndHigh(x, k, 64, m);
  }

  lemma {:induction false} AlignUpIsAnd(k: nat, n: nat, x: nat, m: nat)
    requires k < 64 && n + Pow2(k) <= SizeLimit && x == n + Pow2(k) - 1 && m + Pow2(k) == SizeLimit
    ensures AlignUp(k, n) == And(x, m)
  {
    DivUnique(x, SizeLimit, 0, x);
  }

  lemma {:induction false} ClearedIsRoundUp(a: nat, x: nat)
    requires a > 0
    ensures x - x % a == (x / a) * a
  {
  }

  // serializer<scalar>::from_binary

  /** from_binary(t, p, n) for a scalar of width w: throws unless n is w,
    * else reads the w bytes at p and returns p + w. */
  function FromBinary(input: seq<byte>, p: nat, w: nat, n: nat): (r: Result<(seq<byte>, nat), string>)
    requires p + w <= |input|
    ensures r.Ok? <==> n == w
    ensures r.Ok? ==> |r.value.0| == w && r.value.1 == p + w
  {
    if n != w then Err("Invalid size") else Ok((input[p..p + w], p + w))
  }

  // words

  /** k bytes of x, least significant first: what memcpy of a size_t writes
    * on a little-endian machine (for k = 8). */
  function EncodeWord(x: nat, k: nat): (r: seq<byte>)
    ensures |r| == k
  {
    if k == 0 then [] else [(x % 256) as byte] + EncodeWord(x / 256, k - 1)
  }

  function DecodeWord(s: seq<byte>): nat {
    if s == [] then 0 else s[0] as nat + 256 * DecodeWord(s[1..])
  }

  function Pow256(k: nat): (r: nat)
    ensures r > 0
  {
    if k == 0 then 1 else 256 * Pow256(k - 1)
  }

  lemma {:induction false} DecodeEncodeWord(x: nat, k: nat)
    requires x < Pow256(k)
    ensures DecodeWord(EncodeWord(x, k)) == x
    decreases k
  {
    if k > 0 {
      DivBelow(x, 256, Pow256(k - 1));
      DecodeEncodeWord(x / 256, k - 1);
      assert EncodeWord(x, k)[1..] == EncodeWord(x / 256, k - 1);
    }
  }

  lemma {:induction false} Pow256Of8()
    ensures Pow256(8) == SizeLimit
  {
    assert Pow256(2) == 0x1_0000;
    assert Pow256(4) == 0x1_0000_0000;
    assert Pow256(6) == 0x1_0000_0000_0000;
  }

  /** Words one after another. */
  function EncodeWords(xs: seq<nat>): (r: seq<byte>)
    ensures |r| == WordSize * |xs|
  {
    if xs == [] then [] else EncodeWord(xs[0], WordSize) + EncodeWords(xs[1..])
  }

  /** The first n words of s. */
  function DecodeWords(s: seq<byte>, n: nat): (r: seq<nat>)
    requires |s| >= WordSize * n
    ensures |r| == n
  {
    if n == 0 then [] else [DecodeWord(s[..WordSize])] + DecodeWords(s[WordSize..], n - 1)
  }

  /** Reading back the first k of the words written gives them back. */
  lemma {:induction false} DecodeEncodeWords(xs: seq<nat>, tail: seq<byte>, k: nat)
    requires k <= |xs| && forall i | 0 <= i < |xs| :: xs[i] < SizeLimit
    ensures DecodeWords(EncodeWords(xs) + tail, k) == xs[..k]
    decreases k
  {
    if k > 0 {
      var s := EncodeWords(xs) + tail;
      var w := EncodeWord(xs[0], WordSize);
      assert EncodeWords(xs) == w + EncodeWords(xs[1..]);
      assert s[..WordSize] == w;
      assert s[WordSize..] == EncodeWords(xs[1..]) + tail;
      Pow256Of8();
      DecodeEncodeWord(xs[0], WordSize);
      DecodeEncodeWords(xs[1..], tail, k - 1);
      assert xs[..k] == [xs[0]] + xs[1..][..k - 1];
    }
  }

  // serialize_header

  /** serialize_header<>: the three words every header starts with. */
  datatype Meta = Meta(overallSize: nat, memberCount: nat, typeHash: nat)

  /** equal_hash(h): the stored hash is h, or either is the sentinel. */
  function EqualHash(m: Meta, h: nat): bool {
    h == m.typeHash || (h == Sentinel || m.typeHash == Sentinel)
  }

  /** Two real (non-sentinel) hashes match only when they are equal, the
    * sentinel matches everything, and the test is symmetric. */
  lemma {:induction false} EqualHashMeaning(m: Meta, h: nat)
    ensures h != Sentinel && m.typeHash != Sentinel ==> (EqualHash(m, h) <==> h == m.typeHash)
    ensures h == Sentinel || m.typeHash == Sentinel ==> EqualHash(m, h)
    ensures EqualHash(m, h) == EqualHash(Meta(m.overallSize, m.memberCount, h), m.typeHash)
  {
  }

  /** to_n<N>(): throws unless the header records N members. */
  function ToN(m: Meta, members: seq<nat>, n: nat): (r: Result<seq<nat>, string>)
    ensures r.Ok? <==> m.memberCount == n
    ensures r.Ok? ==> r.value == members
  {
    if m.memberCount != n then Err("Invalid member count") else Ok(members)
  }

  /** sizeof(serialize_header<N>): the three words and N sizes, padded to a
    * multiple of kAlign unless they fill one exactly. */
  function HeaderSize(n: nat): (r: nat) {
    var space := MetaSize + WordSize * n;
    if space % KAlign == 0 then space else space + (KAlign - space % KAlign)
  }

  /** The header is the least multiple of 16 bytes that holds its words. */
  lemma {:induction false} HeaderSizeFits(n: nat)
    ensures HeaderSize(n) % KAlign == 0
    ensures MetaSize + WordSize * n <= HeaderSize(n) < MetaSize + WordSize * n + KAlign
    ensures HeaderSize(0) == 32
  {
  }

  /** The bytes of a header: its words, then zero padding. */
  function HeaderBytes(overall: nat, hash: nat, sizes: seq<nat>): (r: seq<byte>)
    ensures |r| == HeaderSize(|sizes|)
  {
    var words := EncodeWords([overall, |sizes|, hash] + sizes);
    words + seq(HeaderSize(|sizes|) - |words|, _ => 0 as byte)
  }

  // make_pack_aux

  /** A field of the flattened record: its static size, when its serializer
    * has one, and the exponent of its alignment. */
  datatype Field = Field(staticSize: Option<nat>, alignLog: nat)

  /** option: a static size, or the index of the field among the dynamic
    * ones. */
  datatype Slot = Static(size: nat) | Dynamic(index: nat)

  /** dynamic_count: the fields without a static size. */
  function DynamicCount(fields: seq<Field>): nat {
    if fields == [] then 0
    else DynamicCount(fields[..|fields| - 1]) + (if fields[|fields| - 1].staticSize.None? then 1 else 0)
  }

  /** The field indices of the dynamic fields, in field order: what
    * prefix_arr holds. */
  function DynamicFields(fields: seq<Field>): (r: seq<nat>)
    ensures |r| == DynamicCount(fields)
  {
    if fields == [] then []
    else DynamicFields(fields[..|fields| - 1]) + (if fields[|fields| - 1].staticSize.None? then [|fields| - 1] else [])
  }

  /** The slot option_arr holds for field i: its static size, or the number
    * of dynamic fields before it. */
  function SlotOf(fields: seq<Field>, i: nat): Slot
    requires i < |fields|
  {
    if fields[i].staticSize.Some? then Static(fields[i].staticSize.value)
    else Dynamic(DynamicCount(fields[..i]))
  }

  /** Dropping the fields after i does not change its slot. */
  lemma {:induction false} SlotOfPrefix(fields: seq<Field>, n: nat, i: nat)
    requires i < n <= |fields|
    ensures SlotOf(fields[..n], i) == SlotOf(fields, i)
  {
    assert fields[..n][..i] == fields[..i];
  }

  lemma {:induction false} CountPrefix(fields: seq<Field>, i: nat)
    requires i < |fields|
    ensures DynamicCount(fields[..i + 1]) == DynamicCount(fields[..i]) + (if fields[i].staticSize.None? then 1 else 0)
    ensures DynamicFields(fields[..i + 1]) == DynamicFields(fields[..i]) + (if fields[i].staticSize.None? then [i] else [])
  {
    assert fields[..i + 1][..i] == fields[..i];
  }

  lemma {:induction false} CountMono(fields: seq<Field>, i: nat)
    requires i <= |fields|
    ensures DynamicCount(fields[..i]) <= DynamicCount(fields)
    decreases |fields| - i
  {
    if i < |fields| {
      CountPrefix(fields, i);
      CountMono(fields, i + 1);
    } else {
      assert fields[..i] == fields;
    }
  }

  /** prefix_arr maps each dynamic index to a field whose slot is that
    * dynamic index. */
  lemma {:induction false} PrefixInverse(fields: seq<Field>, j: nat)
    requires j < DynamicCount(fields)
    ensures DynamicFields(fields)[j] < |fields|
    ensures SlotOf(fields, DynamicFields(fields)[j]) == Dynamic(j)
    decreases |fields|
  {
    var n := |fields|;
    var init := fields[..n - 1];
    if j < DynamicCount(init) {
      PrefixInverse(init, j);
      SlotOfPrefix(fields, n - 1, DynamicFields(init)[j]);
    } else {
      assert init == fields[..n - 1];
    }
  }

  /** Each dynamic field's slot is an index into prefix_arr that leads back
    * to the field. */
  lemma {:induction false} SlotInverse(fields: seq<Field>, i: nat)
    requires i < |fields| && fields[i].staticSize.None?
    ensures SlotOf(fields, i).index < DynamicCount(fields)
    ensures DynamicFields(fields)[SlotOf(fields, i).index] == i
    decreases |fields|
  {
    var n := |fields|;
    var init := fields[..n - 1];
    if i < n - 1 {
      SlotInverse(init, i);
      SlotOfPrefix(fields, n - 1, i);
    }
  }

  /** prefix_arr lists the dynamic fields in increasing field order. */
  lemma {:induction false} DynamicFieldsIncrease(fields: seq<Field>, j: nat, j': nat)
    requires j < j' < DynamicCount(fields)
    ensures DynamicFields(fields)[j] < DynamicFields(fields)[j']
    decreases |fields|
  {
    var n := |fields|;
    var init := fields[..n - 1];
    if j' < DynamicCount(init) {
      DynamicFieldsIncrease(init, j, j');
    } else {
      PrefixInverse(init, j);
    }
  }

  /** The loop that fills prefix_arr. */
  method PrefixArr(fields: seq<Field>) returns (result: array<nat>)
    ensures result.Length == DynamicCount(fields) && result[..] == DynamicFields(fields)
  {
    result := new nat[DynamicCount(fields)];
    var which := 0;
    for i := 0 to |fields|
      invariant which == DynamicCount(fields[..i]) <= result.Length
      invariant result[..which] == DynamicFields(fields[..i])
    {
      CountPrefix(fields, i);
      CountMono(fields, i + 1);
      if fields[i].staticSize.None? {
        result[which] := i;
        which := which + 1;
      }
    }
    assert fields[..|fields|] == fields;
  }

  /** The loop that fills option_arr. */
  method OptionArr(fields: seq<Field>) returns (result: array<Slot>)
    ensures result.Length == |fields|
    ensures forall i | 0 <= i < |fields| :: result[i] == SlotOf(fields, i)
  {
    result := new Slot[|fields|](_ => Static(0));
    var which := 0;
    for i := 0 to |fields|
      invariant which == DynamicCount(fields[..i])
      invariant forall i' | 0 <= i' < i :: result[i'] == SlotOf(fields, i')
    {
      CountPrefix(fields, i);
      if fields[i].staticSize.Some? {
        result[i] := Static(fields[i].staticSize.value);
      } else {
        result[i] := Dynamic(which);
        which := which + 1;
      }
    }
  }

  // copy_value_aux: the layout

  /** alignments[i]: the exponent of field i's alignment, and kAlign's after
    * the last field. */
  function AlignOf(fields: seq<Field>, i: nat): nat
    requires i <= |fields|
  {
    if i < |fields| then fields[i].alignLog else KAlignLog
  }

  /** The bytes field i takes: its static size, or sizes.at(its dynamic
    * index). */
  function FieldSize(fields: seq<Field>, sizes: seq<nat>, i: nat): nat
    requires i < |fields| && |sizes| == DynamicCount(fields)
  {
    match SlotOf(fields, i)
    case Static(s) => s
    case Dynamic(j) => SlotInverse(fields, i); sizes[j]
  }

  /** One step of helper_func: the offset after a field ending at size,
    * rounded up to the next alignment unless the field's own alignment is a
    * multiple of it. */
  function Advance(last: nat, next: nat, size: nat): nat {
    if Pow2(last) % Pow2(next) == 0 then size else RoundUp(next, size)
  }

  /** The offset of field i: sizeof(Header) for the first; for i = |fields|,
    * the size of the whole output. */
  function Offset(fields: seq<Field>, sizes: seq<nat>, i: nat): nat
    requires i <= |fields| && |sizes| == DynamicCount(fields)
  {
    if i == 0 then HeaderSize(|sizes|)
    else
      var size := Offset(fields, sizes, i - 1) + FieldSize(fields, sizes, i - 1);
      Advance(AlignOf(fields, i - 1), AlignOf(fields, i), size)
  }

  /** need: what copy_value_aux<false> returns. */
  function LayoutEnd(fields: seq<Field>, sizes: seq<nat>): nat
    requires |sizes| == DynamicCount(fields)
  {
    Offset(fields, sizes, |fields|)
  }

  /** The test last % next == 0 on powers of two holds exactly when the
    * previous alignment is at least the next one. */
  lemma {:induction false} Pow2Divides(a: nat, b: nat)
    ensures Pow2(a) % Pow2(b) == 0 <==> b <= a
  {
    if b <= a {
      Pow2Add(b, a - b);
      DivUnique(Pow2(b), Pow2(b), 1, 0);
      ModZeroMul(Pow2(b), Pow2(a - b), Pow2(b));
    } else {
      Pow2Mono(a + 1, b);
      Pow2Add(a, 1);
      ModSmall(Pow2(a), Pow2(b));
    }
  }

  /** A multiple of 2^a is a multiple of 2^b for b <= a. */
  lemma {:induction false} MultipleDown(x: nat, a: nat, b: nat)
    requires b <= a && x % Pow2(a) == 0
    ensures x % Pow2(b) == 0
  {
    Pow2Add(b, a - b);
    MultipleOfFactor(x, Pow2(b), Pow2(a - b));
  }

  lemma {:induction false} MultipleOfFactor(x: nat, q: nat, r: nat)
    requires q > 0 && r > 0 && x % (q * r) == 0
    ensures x % q == 0
  {
    var k := x / (q * r);
    assert x == (q * r) * k;
    MulAssoc(q, r, k);
    DivUnique(x, q, r * k, 0);
  }

  lemma {:induction false} MultipleSum(x: nat, y: nat, m: nat)
    requires m > 0 && x % m == 0 && y % m == 0
    ensures (x + y) % m == 0
  {
    assert x + y == m * (x / m + y / m);
    DivUnique(x + y, m, x / m + y / m, 0);
  }

  /** A step never moves back, and moves by less than the next alignment. */
  lemma {:induction false} AdvanceCovers(last: nat, next: nat, size: nat)
    ensures size <= Advance(last, next, size) < size + Pow2(next)
  {
  }

  /** A step from a multiple of the previous alignment lands on a multiple of
    * the next one. */
  lemma {:induction false} AdvanceAligned(last: nat, next: nat, size: nat)
    requires size % Pow2(last) == 0
    ensures Advance(last, next, size) % Pow2(next) == 0
  {
    Pow2Divides(last, next);
    if Pow2(last) % Pow2(next) == 0 {
      MultipleDown(size, last, next);
    }
  }

  /** Offsets never decrease: the header comes before every field. */
  lemma {:induction false} OffsetMono(fields: seq<Field>, sizes: seq<nat>, i: nat, j: nat)
    requires i <= j <= |fields| && |sizes| == DynamicCount(fields)
    ensures Offset(fields, sizes, i) <= Offset(fields, sizes, j)
    decreases j
  {
    if i < j {
      OffsetMono(fields, sizes, i, j - 1);
      var size := Offset(fields, sizes, j - 1) + FieldSize(fields, sizes, j - 1);
      AdvanceCovers(AlignOf(fields, j - 1), AlignOf(fields, j), size);
    }
  }

  /** Field i ends before every later field starts, and before the end of
    * the output: no two fields overlap and none runs past need. */
  lemma {:induction false} OffsetsApart(fields: seq<Field>, sizes: seq<nat>, i: nat, j: nat)
    requires i < j <= |fields| && |sizes| == DynamicCount(fields)
    ensures HeaderSize(|sizes|) <= Offset(fields, sizes, i)
    ensures Offset(fields, sizes, i) + FieldSize(fields, sizes, i) <= Offset(fields, sizes, j)
  {
    OffsetMono(fields, sizes, 0, i);
    OffsetStep(fields, sizes, i);
    OffsetMono(fields, sizes, i + 1, j);
  }

  lemma {:induction false} OffsetStep(fields: seq<Field>, sizes: seq<nat>, i: nat)
    requires i < |fields| && |sizes| == DynamicCount(fields)
    ensures Offset(fields, sizes, i) + FieldSize(fields, sizes, i) <= Offset(fields, sizes, i + 1)
  {
    var size := Offset(fields, sizes, i) + FieldSize(fields, sizes, i);
    AdvanceCovers(AlignOf(fields, i), AlignOf(fields, i + 1), size);
  }

  /** Every alignment is at most kAlign, and every field's size is a
    * multiple of its alignment (as sizeof is of alignof). */
  predicate WellAligned(fields: seq<Field>, sizes: seq<nat>)
    requires |sizes| == DynamicCount(fields)
  {
    forall i | 0 <= i < |fields| ::
      fields[i].alignLog <= KAlignLog && FieldSize(fields, sizes, i) % Pow2(fields[i].alignLog) == 0
  }

  /** Every field starts at a multiple of its alignment, and the output's
    * size (overall_size) is a multiple of kAlign. */
  lemma {:induction false} LayoutAligned(fields: seq<Field>, sizes: seq<nat>, i: nat)
    requires i <= |fields| && |sizes| == DynamicCount(fields) && WellAligned(fields, sizes)
    ensures Offset(fields, sizes, i) % Pow2(AlignOf(fields, i)) == 0
    ensures i == |fields| ==> LayoutEnd(fields, sizes) % KAlign == 0
    decreases i
  {
    Pow2OfAlign();
    if i == 0 {
      HeaderSizeFits(|sizes|);
      MultipleDown(HeaderSize(|sizes|), KAlignLog, AlignOf(fields, 0));
    } else {
      LayoutAligned(fields, sizes, i - 1);
      var last := AlignOf(fields, i - 1);
      var off := Offset(fields, sizes, i - 1);
      var size := off + FieldSize(fields, sizes, i - 1);
      MultipleSum(off, FieldSize(fields, sizes, i - 1), Pow2(last));
      AdvanceAligned(last, AlignOf(fields, i), size);
    }
  }

  /** The simple{int, long} record of sl.cpp: a 4-byte and an 8-byte field,
    * aligned to 4 and 8. */
  const Simple: seq<Field> := [Field(Some(4), 2), Field(Some(8), 3)]

  /** x sits at the end of the 32-byte header, y 8 bytes later, and the
    * output is 48 bytes. */
  lemma {:induction false} SimpleLayout()
    ensures DynamicCount(Simple) == 0
    ensures Offset(Simple, [], 0) == 32 && Offset(Simple, [], 1) == 40 && LayoutEnd(Simple, []) == 48
  {
    assert Simple[..1][..0] == [];
    assert Simple[..1] == [Field(Some(4), 2)];
    assert Simple[..2] == Simple;
    assert DynamicCount(Simple[..1]) == 0;
    HeaderSizeFits(0);
    assert Pow2(1) == 2;
    assert Pow2(2) == 4;
    assert Pow2(3) == 8;
    assert Pow2(4) == 16;
    assert RoundUp(3, 36) == 40;
    assert RoundUp(4, 48) == 48;
  }

  // serialize

  /** data[i] = to_binary(field i): a static field's bytes number its static
    * size. */
  predicate Serializable(fields: seq<Field>, data: seq<seq<byte>>) {
    |data| == |fields| &&
    forall i | 0 <= i < |fields| :: fields[i].staticSize.Some? ==> |data[i]| == fields[i].staticSize.value
  }

  /** make_sizes_aux: the size of each dynamic field's bytes, by dynamic
    * index. */
  function DynSizes(fields: seq<Field>, data: seq<seq<byte>>): (r: seq<nat>)
    requires |data| == |fields|
    ensures |r| == DynamicCount(fields)
  {
    seq(DynamicCount(fields), j requires 0 <= j < DynamicCount(fields) =>
      PrefixInverse(fields, j); |data[DynamicFields(fields)[j]]|)
  }

  /** With the sizes make_sizes_aux computes, every field takes exactly as
    * many bytes as its serialiser gave. */
  lemma {:induction false} SizesOfData(fields: seq<Field>, data: seq<seq<byte>>, i: nat)
    requires Serializable(fields, data) && i < |fields|
    ensures FieldSize(fields, DynSizes(fields, data), i) == |data[i]|
  {
    if fields[i].staticSize.None? {
      SlotInverse(fields, i);
    }
  }

  /** Field j's bytes sit at its offset in out. */
  predicate Placed(out: seq<byte>, fields: seq<Field>, data: seq<seq<byte>>, j: nat)
    requires Serializable(fields, data) && j < |fields|
  {
    var off := Offset(fields, DynSizes(fields, data), j);
    off + |data[j]| <= |out| && out[off..off + |data[j]|] == data[j]
  }

  /** What serialize produces: need bytes, starting with the header that
    * records need, the dynamic sizes and the hash, and holding each field's
    * bytes at its offset. */
  predicate Encodes(out: seq<byte>, fields: seq<Field>, data: seq<seq<byte>>, hash: nat)
    requires Serializable(fields, data)
  {
    var sizes := DynSizes(fields, data);
    |out| == LayoutEnd(fields, sizes) &&
    HeaderSize(|sizes|) <= |out| &&
    out[..HeaderSize(|sizes|)] == HeaderBytes(|out|, hash, sizes) &&
    forall j | 0 <= j < |fields| :: Placed(out, fields, data, j)
  }

  /** copy_value_aux<false>: the running offset threaded through the fields,
    * using the pack's option and alignment arrays. */
  method Layout(fields: seq<Field>, sizes: seq<nat>) returns (need: nat)
    requires |sizes| == DynamicCount(fields)
    ensures need == LayoutEnd(fields, sizes)
  {
    var options := OptionArr(fields);
    var slots := options[..];
    need := HeaderSize(|sizes|);
    for i := 0 to |fields|
      invariant need == Offset(fields, sizes, i)
    {
      var size := need;
      match slots[i] {
        case Static(s) =>
          size := size + s;
        case Dynamic(j) =>
          SlotInverse(fields, i);
          size := size + sizes[j];
      }
      var last, next := AlignOf(fields, i), AlignOf(fields, i + 1);
      if Pow2(last) % Pow2(next) == 0 {
        need := size;
      } else {
        need := RoundUp(next, size);
      }
    }
  }

  /** std::ranges::copy of src into a at off. */
  method CopyInto(a: array<byte>, off: nat, src: seq<byte>)
    requires off + |src| <= a.Length
    modifies a
    ensures a[..off] == old(a[..off]) && a[off..off + |src|] == src
    ensures a[off + |src|..] == old(a[off + |src|..])
  {
    for k := 0 to |src|
      invariant a[..off] == old(a[..off]) && a[off..off + k] == src[..k]
      invariant a[off + k..] == old(a[off + k..])
    {
      a[off + k] := src[k];
      assert a[off..off + k + 1] == a[off..off + k] + [src[k]];
      assert src[..k + 1] == src[..k] + [src[k]];
    }
  }

  /** serialize: size the output, write the header, then copy each field's
    * bytes to its offset. */
  method Serialize(fields: seq<Field>, data: seq<seq<byte>>, hash: nat) returns (out: seq<byte>)
    requires Serializable(fields, data)
    ensures Encodes(out, fields, data, hash)
  {
    var sizes := DynSizes(fields, data);
    var need := Layout(fields, sizes);
    OffsetMono(fields, sizes, 0, |fields|);
    var result := new byte[need](_ => 0);
    var header := HeaderBytes(need, hash, sizes);
    CopyInto(result, 0, header);
    var off := HeaderSize(|sizes|);
    for i := 0 to |fields|
      invariant off == Offset(fields, sizes, i)
      invariant result[..|header|] == header
      invariant forall j | 0 <= j < i :: Placed(result[..], fields, data, j)
    {
      SizesOfData(fields, data, i);
      OffsetsApart(fields, sizes, i, |fields|);
      ghost var before := result[..];
      CopyInto(result, off, data[i]);
      assert result[..][..off] == before[..off];
      assert result[..][off..off + |data[i]|] == data[i];
      SliceKept(before, result[..], off, 0, |header|);
      PlacedKept(before, result[..], fields, data, i, off);
      var size := off + |data[i]|;
      OffsetNext(fields, sizes, i, size);
      off := Advance(AlignOf(fields, i), AlignOf(fields, i + 1), size);
    }
    out := result[..];
  }

  /** Bytes before off that a write at off leaves alone. */
  lemma {:induction false} SliceKept(before: seq<byte>, after: seq<byte>, off: nat, o: nat, e: nat)
    requires o <= e <= off <= |before| && off <= |after| && after[..off] == before[..off]
    ensures after[o..e] == before[o..e]
  {
    assert after[o..e] == after[..off][o..e];
    assert before[o..e] == before[..off][o..e];
  }

  /** A write at field i's offset keeps the fields before i in place and
    * places field i. */
  lemma {:induction false} PlacedKept(before: seq<byte>, after: seq<byte>, fields: seq<Field>, data: seq<seq<byte>>, i: nat, off: nat)
    requires Serializable(fields, data) && i < |fields|
    requires off == Offset(fields, DynSizes(fields, data), i) && |before| == |after|
    requires off + |data[i]| <= |after| && after[..off] == before[..off] && after[off..off + |data[i]|] == data[i]
    requires forall j | 0 <= j < i :: Placed(before, fields, data, j)
    ensures forall j | 0 <= j < i + 1 :: Placed(after, fields, data, j)
  {
    forall j | 0 <= j < i
      ensures Placed(after, fields, data, j)
    {
      assert Placed(before, fields, data, j);
      SizesOfData(fields, data, j);
      OffsetsApart(fields, DynSizes(fields, data), j, i);
      var o := Offset(fields, DynSizes(fields, data), j);
      SliceKept(before, after, off, o, o + |data[j]|);
    }
  }

  lemma {:induction false} OffsetNext(fields: seq<Field>, sizes: seq<nat>, i: nat, size: nat)
    requires i < |fields| && |sizes| == DynamicCount(fields)
    requires size == Offset(fields, sizes, i) + FieldSize(fields, sizes, i)
    ensures Offset(fields, sizes, i + 1) == Advance(AlignOf(fields, i), AlignOf(fields, i + 1), size)
  {
  }

  // deserialize

  /** type_hash: the sentinel under constant evaluation, else the type's
    * hash code. */
  function TypeHash(constEval: bool, hash: nat): nat {
    if constEval then Sentinel else hash
  }

  /** from_bytes<serialize_header<>>: the first three words. */
  function ReadMeta(input: seq<byte>): Meta
    requires |input| >= MetaSize
  {
    var w := DecodeWords(input, 3);
    Meta(w[0], w[1], w[2])
  }

  /** deserialize_result: the fields' bytes and what follows the record. */
  datatype Decoded = Decoded(values: seq<seq<byte>>, rest: seq<byte>)

  /** The checks deserialize makes before it reads any field, as written:
    * the input's address (outside constant evaluation), its size against
    * the three words and against overall_size, the hash, and (through to_n,
    * outside constant evaluation) the member count. */
  function Checks(fields: seq<Field>, input: seq<byte>, address: nat, constEval: bool, hash: nat): (r: Result<Meta, string>)
    ensures r.Ok? <==>
      (constEval || address % KAlign == 0) && |input| >= MetaSize &&
      |input| >= ReadMeta(input).overallSize && EqualHash(ReadMeta(input), TypeHash(constEval, hash)) &&
      (constEval || ReadMeta(input).memberCount == DynamicCount(fields))
    ensures r.Ok? ==> r.value == ReadMeta(input)
    ensures r == Err("Invalid input alignment") <==> !constEval && address % KAlign != 0
  {
    if !constEval && address % KAlign != 0 then Err("Invalid input alignment")
    else if |input| < MetaSize then Err("Invalid input size")
    else
      var meta := ReadMeta(input);
      if |input| < meta.overallSize then Err("Invalid input size")
      else if !EqualHash(meta, TypeHash(constEval, hash)) then Err("Invalid type hash")
      else if !constEval && ToN(meta, [], DynamicCount(fields)).Err? then Err("Invalid member count")
      else Ok(meta)
  }

  /** copy_value_aux (read) for field i: a static field through the scalar
    * from_binary with its own size, a dynamic one as the bytes its recorded
    * size covers. */
  function ReadField(fields: seq<Field>, sizes: seq<nat>, input: seq<byte>, i: nat): (r: seq<byte>)
    requires i < |fields| && |sizes| == DynamicCount(fields) && LayoutEnd(fields, sizes) <= |input|
    ensures Offset(fields, sizes, i) + FieldSize(fields, sizes, i) <= |input|
    ensures r == input[Offset(fields, sizes, i)..Offset(fields, sizes, i) + FieldSize(fields, sizes, i)]
  {
    OffsetsApart(fields, sizes, i, |fields|);
    var off := Offset(fields, sizes, i);
    match SlotOf(fields, i)
    case Static(w) => FromBinary(input, off, w, w).value.0
    case Dynamic(j) => SlotInverse(fields, i); input[off..off + sizes[j]]
  }

  function ReadFields(fields: seq<Field>, sizes: seq<nat>, input: seq<byte>): (r: seq<seq<byte>>)
    requires |sizes| == DynamicCount(fields) && LayoutEnd(fields, sizes) <= |input|
    ensures |r| == |fields|
  {
    seq(|fields|, i requires 0 <= i < |fields| => ReadField(fields, sizes, input, i))
  }

  /** deserialize, with the record's bounds checked and rest kept: after
    * the checks, the header must fit in the input and every field in
    * overall_size; the dynamic sizes are the header's members, and rest is
    * what follows overall_size. */
  function Deserialize(fields: seq<Field>, input: seq<byte>, address: nat, constEval: bool, hash: nat): (r: Result<Decoded, string>)
    ensures Checks(fields, input, address, constEval, hash).Err? ==> r == Err(Checks(fields, input, address, constEval, hash).error)
    ensures r.Ok? ==> |r.value.values| == |fields| && r.value.rest == input[Checks(fields, input, address, constEval, hash).value.overallSize..]
  {
    match Checks(fields, input, address, constEval, hash)
    case Err(e) => Err(e)
    case Ok(meta) =>
      var nm := DynamicCount(fields);
      HeaderSizeFits(nm);
      if |input| < HeaderSize(nm) then Err("Invalid input size")
      else
        var sizes := DecodeWords(input, 3 + nm)[3..];
        if meta.overallSize < LayoutEnd(fields, sizes) then Err("Invalid input size")
        else Ok(Decoded(ReadFields(fields, sizes, input), input[meta.overallSize..]))
  }

  /** Every field read lies inside the record: what Deserialize accepts has
    * the header and the layout within overall_size. */
  lemma {:induction false} DeserializeInBounds(fields: seq<Field>, input: seq<byte>, address: nat, constEval: bool, hash: nat)
    requires Deserialize(fields, input, address, constEval, hash).Ok?
    ensures HeaderSize(DynamicCount(fields)) <= |input|
    ensures LayoutEnd(fields, DecodeWords(input, 3 + DynamicCount(fields))[3..]) <= ReadMeta(input).overallSize <= |input|
  {
  }

  /** Round trip: serialize's output, followed by anything, deserializes to
    * the fields' bytes with the trailing bytes as rest, as long as every
    * header word fits a size_t and the input is aligned. */
  lemma {:induction false} RoundTrip(fields: seq<Field>, data: seq<seq<byte>>, out: seq<byte>, more: seq<byte>, address: nat, constEval: bool, hash: nat)
    requires Serializable(fields, data) && Encodes(out, fields, data, TypeHash(constEval, hash))
    requires |out| < SizeLimit && TypeHash(constEval, hash) < SizeLimit
    requires forall j | 0 <= j < |DynSizes(fields, data)| :: DynSizes(fields, data)[j] < SizeLimit
    requires constEval || address % KAlign == 0
    ensures Deserialize(fields, out + more, address, constEval, hash) == Ok(Decoded(data, more))
  {
    var sizes := DynSizes(fields, data);
    var h := TypeHash(constEval, hash);
    var input := out + more;
    HeaderRoundTrip(fields, data, out, more, h);
    var meta := ReadMeta(input);
    EqualHashMeaning(meta, h);
    ValuesRoundTrip(fields, data, out, more, h);
    DeserializeOk(fields, input, address, constEval, hash, meta, sizes);
    assert input[|out|..] == more;
  }

  /** Deserialize, once the checks pass and the layout given by the header
    * fits. */
  lemma {:induction false} DeserializeOk(fields: seq<Field>, input: seq<byte>, address: nat, constEval: bool, hash: nat, meta: Meta, sizes: seq<nat>)
    requires Checks(fields, input, address, constEval, hash) == Ok(meta)
    requires |input| >= HeaderSize(DynamicCount(fields)) >= WordSize * (3 + DynamicCount(fields))
    requires sizes == DecodeWords(input, 3 + DynamicCount(fields))[3..]
    requires LayoutEnd(fields, sizes) <= meta.overallSize <= |input|
    ensures Deserialize(fields, input, address, constEval, hash) == Ok(Decoded(ReadFields(fields, sizes, input), input[meta.overallSize..]))
  {
  }

  /** The header words read back from serialize's output are need, the
    * member count, the hash and the dynamic sizes. */
  lemma {:induction false} HeaderRoundTrip(fields: seq<Field>, data: seq<seq<byte>>, out: seq<byte>, more: seq<byte>, h: nat)
    requires Serializable(fields, data) && Encodes(out, fields, data, h)
    requires |out| < SizeLimit && h < SizeLimit && forall j | 0 <= j < |DynSizes(fields, data)| :: DynSizes(fields, data)[j] < SizeLimit
    ensures |out + more| >= HeaderSize(DynamicCount(fields)) >= WordSize * (3 + DynamicCount(fields))
    ensures ReadMeta(out + more) == Meta(|out|, DynamicCount(fields), h)
    ensures DecodeWords(out + more, 3 + DynamicCount(fields))[3..] == DynSizes(fields, data)
  {
    var sizes := DynSizes(fields, data);
    var nm := |sizes|;
    var words := [|out|, nm, h] + sizes;
    var input := out + more;
    HeaderSizeFits(nm);
    var enc := EncodeWords(words);
    assert out[..HeaderSize(nm)] == HeaderBytes(|out|, h, sizes);
    assert input == enc + input[|enc|..] by {
      assert input[..|enc|] == out[..HeaderSize(nm)][..|enc|];
    }
    DecodeEncodeWords(words, input[|enc|..], 3);
    DecodeEncodeWords(words, input[|enc|..], 3 + nm);
    assert words[..3] == [|out|, nm, h];
    assert words[..3 + nm][3..] == sizes;
  }

  /** Each field is read back from where serialize placed it. */
  lemma {:induction false} ValuesRoundTrip(fields: seq<Field>, data: seq<seq<byte>>, out: seq<byte>, more: seq<byte>, h: nat)
    requires Serializable(fields, data) && Encodes(out, fields, data, h)
    ensures LayoutEnd(fields, DynSizes(fields, data)) <= |out + more|
    ensures ReadFields(fields, DynSizes(fields, data), out + more) == data
  {
    var sizes := DynSizes(fields, data);
    var input := out + more;
    var values := ReadFields(fields, sizes, input);
    forall i | 0 <= i < |fields|
      ensures values[i] == data[i]
    {
      SizesOfData(fields, data, i);
      assert Placed(out, fields, data, i);
      var o := Offset(fields, sizes, i);
      assert input[o..o + |data[i]|] == out[o..o + |data[i]|];
    }
  }

  // deserialize as written

  /** result.rest as written: input.subspan(input.size_bytes()), the empty
    * tail of the input. */
  function RestAsWritten(input: seq<byte>): (r: seq<byte>)
    ensures |r| == 0
  {
    input[|input|..]
  }

  /** Bytes after a serialised record are lost as written, while the
    * corrected rest keeps them. */
  lemma {:induction false} RestLost(fields: seq<Field>, data: seq<seq<byte>>, out: seq<byte>, more: seq<byte>, hash: nat)
    requires Serializable(fields, data) && Encodes(out, fields, data, Sentinel)
    requires |out| < SizeLimit && forall j | 0 <= j < |DynSizes(fields, data)| :: DynSizes(fields, data)[j] < SizeLimit
    requires more != []
    ensures RestAsWritten(out + more) != more
    ensures Deserialize(fields, out + more, 0, true, hash).Ok? && Deserialize(fields, out + more, 0, true, hash).value.rest == more
  {
    RoundTrip(fields, data, out, more, 0, true, hash);
  }

  /** A 24-byte input holding only the three words passes every check
    * deserialize makes for simple{int, long}, whose fields lie at bytes
    * 32 to 48, past its end; the corrected Deserialize rejects it. */
  lemma ShortInputAccepted()
    ensures var input := EncodeWords([24, 0, Sentinel]);
      |input| == 24 && Checks(Simple, input, 0, true, 0).Ok? &&
      LayoutEnd(Simple, []) > |input| &&
      Deserialize(Simple, input, 0, true, 0) == Err("Invalid input size")
  {
    var input := EncodeWords([24, 0, Sentinel]);
    Pow2Of64();
    assert forall i | 0 <= i < 3 :: [24, 0, Sentinel][i] < SizeLimit;
    DecodeEncodeWords([24, 0, Sentinel], [], 3);
    assert input + [] == input;
    assert [24, 0, Sentinel][..3] == [24, 0, Sentinel];
    assert ReadMeta(input) == Meta(24, 0, Sentinel);
    SimpleLayout();
    HeaderSizeFits(0);
  }

  /** The dynamic sizes deserialize reads, as written. Under constant
    * evaluation it reads serialize_header<N> from the input; otherwise to_n
    * reinterprets the local 24-byte copy of the three words, so the members
    * come from whatever lies after that copy (beyond), not from the input. */
  function MembersAsWritten(input: seq<byte>, constEval: bool, nm: nat, beyond: seq<nat>): (r: seq<nat>)
    requires constEval ==> |input| >= WordSize * (3 + nm)
    requires |beyond| >= nm
    ensures |r| == nm
  {
    if constEval then DecodeWords(input, 3 + nm)[3..] else beyond[..nm]
  }

  /** For a record with a dynamic field, the sizes read as written outside
    * constant evaluation differ from the ones serialize wrote whenever the
    * bytes after the copy do, while the corrected Deserialize reads the
    * written ones. */
  lemma {:induction false} MembersFromCopy(fields: seq<Field>, data: seq<seq<byte>>, out: seq<byte>, hash: nat, beyond: seq<nat>)
    requires Serializable(fields, data) && Encodes(out, fields, data, hash)
    requires |out| < SizeLimit && hash < SizeLimit && forall j | 0 <= j < |DynSizes(fields, data)| :: DynSizes(fields, data)[j] < SizeLimit
    requires |beyond| >= DynamicCount(fields) > 0 && beyond[0] != DynSizes(fields, data)[0]
    ensures MembersAsWritten(out, false, DynamicCount(fields), beyond) != DynSizes(fields, data)
    ensures DecodeWords(out, 3 + DynamicCount(fields))[3..] == DynSizes(fields, data)
  {
    HeaderRoundTrip(fields, data, out, [], hash);
    assert out + [] == out;
  }

  // the constant-evaluated convert of sl.cpp

  lemma {:induction false} PatchedEncodes(v: seq<byte>, xb: seq<byte>, yb: seq<byte>)
    requires |xb| == 4 && |yb| == 8 && |v| == 48
    requires Serializable(Simple, [xb, yb]) && Encodes(v, Simple, [xb, yb], Sentinel)
    ensures Serializable(Simple, [xb[0 := 233], yb[0 := 66]])
    ensures Encodes(v[32 := 233][40 := 66], Simple, [xb[0 := 233], yb[0 := 66]], Sentinel)
  {
    SimpleLayout();
    var data := [xb, yb];
    var data' := [xb[0 := 233], yb[0 := 66]];
    var v' := v[32 := 233][40 := 66];
    assert DynSizes(Simple, data) == [] && DynSizes(Simple, data') == [];
    assert Placed(v, Simple, data, 0) && Placed(v, Simple, data, 1);
    assert v'[32..36] == xb[0 := 233];
    assert v'[40..48] == yb[0 := 66];
    assert v'[..32] == v[..32];
    assert Placed(v', Simple, data', 0) && Placed(v', Simple, data', 1);
  }

  /** convert(simple{1, 2}) under constant evaluation: serialize, overwrite
    * the first byte of each field (at the end of serialize_header<0>, and 8
    * bytes later), deserialize; x reads 233 and y 66. */
  method Convert() returns (x: nat, y: nat)
    ensures x == 233 && y == 66
  {
    var xb, yb := EncodeWord(1, 4), EncodeWord(2, 8);
    EncodeSmall(1, 4);
    EncodeSmall(2, 8);
    assert Serializable(Simple, [xb, yb]);
    var v := Serialize(Simple, [xb, yb], TypeHash(true, 0));
    ConvertLength(v, xb, yb);
    var o := HeaderSize(0);
    var patched := v[o := 233][o + 8 := 66];
    var r := Deserialize(Simple, patched, 0, true, 0);
    ConvertReads(v, xb, yb);
    x := DecodeWord(r.value.values[0]);
    y := DecodeWord(r.value.values[1]);
    DecodeLow(xb[0 := 233]);
    DecodeLow(yb[0 := 66]);
  }

  /** A value below 256 is its first byte, the others zero. */
  lemma {:induction false} EncodeSmall(x: nat, k: nat)
    requires x < 256 && k > 0
    ensures EncodeWord(x, k)[0] as nat == x
    ensures forall i | 1 <= i < k :: EncodeWord(x, k)[i] == 0
  {
    EncodeZeros(k - 1);
    assert EncodeWord(x, k) == [x as byte] + EncodeWord(0, k - 1);
  }

  lemma {:induction false} EncodeZeros(k: nat)
    ensures forall i | 0 <= i < k :: EncodeWord(0, k)[i] == 0
    decreases k
  {
    if k > 0 {
      EncodeZeros(k - 1);
      assert EncodeWord(0, k) == [0 as byte] + EncodeWord(0, k - 1);
    }
  }

  lemma {:induction false} ConvertLength(v: seq<byte>, xb: seq<byte>, yb: seq<byte>)
    requires Serializable(Simple, [xb, yb]) && Encodes(v, Simple, [xb, yb], Sentinel)
    ensures |v| == 48 && HeaderSize(0) == 32 && |xb| == 4 && |yb| == 8
  {
    SimpleLayout();
    HeaderSizeFits(0);
    assert DynSizes(Simple, [xb, yb]) == [];
  }

  /** Deserializing the patched output gives each field with its first
    * byte replaced. */
  lemma {:induction false} ConvertReads(v: seq<byte>, xb: seq<byte>, yb: seq<byte>)
    requires |xb| == 4 && |yb| == 8 && |v| == 48
    requires Serializable(Simple, [xb, yb]) && Encodes(v, Simple, [xb, yb], Sentinel)
    ensures Deserialize(Simple, v[32 := 233][40 := 66], 0, true, 0) ==
      Ok(Decoded([xb[0 := 233], yb[0 := 66]], []))
  {
    PatchedEncodes(v, xb, yb);
    var data := [xb[0 := 233], yb[0 := 66]];
    var patched := v[32 := 233][40 := 66];
    SimpleLayout();
    assert DynSizes(Simple, data) == [];
    Pow2Of64();
    RoundTrip(Simple, data, patched, [], 0, true, 0);
    assert patched + [] == patched;
  }

  /** Bytes that are zero past the first decode to the first. */
  lemma {:induction false} DecodeLow(s: seq<byte>)
    requires |s| > 0 && forall i | 1 <= i < |s| :: s[i] == 0
    ensures DecodeWord(s) == s[0] as nat
  {
    DecodeZeros(s[1..]);
  }

  lemma {:induction false} DecodeZeros(s: seq<byte>)
    requires forall i | 0 <= i < |s| :: s[i] == 0
    ensures DecodeWord(s) == 0
    decreases |s|
  {
    if s != [] {
      DecodeZeros(s[1..]);
    }
  }
}
