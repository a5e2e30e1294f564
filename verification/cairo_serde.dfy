/** The felt-array serialisation contract that Starknet's Cairo ABI uses
    (the `CairoSerde` trait of the cainome crate): every serialisable type has a
    serialized size, an encoder to a sequence of field elements, and a decoder
    that reads a value starting at an offset into a felt slice.

    A codec is modelled as a record of three function values. The laws a
    well-behaved codec obeys are stated once here, and the two concrete codecs
    the session token needs (a single felt, and the length-prefixed Cairo
    array) are proved to obey them. */
module CairoSerde {

  /** A Starknet field element. Felts are treated as naturals: the field
      modulus never matters to the codecs and hashes modelled here. */
  type Felt = nat

  /** Why a decoder gave up: it needed a felt at an offset past the end. */
  datatype Error = OutOfBounds(offset: nat)

  /** The decoder's result; failure-compatible, so `:-` plays the part of `?`. */
  datatype Result<+T> = Ok(value: T) | Err(error: Error) {
    predicate IsFailure() { Err? }
    function PropagateFailure<U>(): Result<U> requires Err? { Err(error) }
    function Extract(): T requires Ok? { value }
  }

  /** `cairo_serialized_size`, `cairo_serialize` and `cairo_deserialize` of one type. */
  datatype Codec<!T> = Codec(
    size: T -> nat,
    serialize: T -> seq<Felt>,
    deserialize: (seq<Felt>, nat) -> Result<T>)

  /** The felts `e` occur in `felts` starting at index `offset`. */
  predicate At(felts: seq<Felt>, offset: nat, e: seq<Felt>) {
    offset + |e| <= |felts| && felts[offset..offset + |e|] == e
  }

  /** The serialized size of a value is the length of its encoding. */
  ghost predicate SizeLaw<T(!new)>(c: Codec<T>) {
    forall x :: |c.serialize(x)| == c.size(x)
  }

  /** Wherever the encoding of `x` occurs, decoding there gives back `x`,
      whatever precedes or follows it. */
  ghost predicate RoundTrip<T(!new)>(c: Codec<T>) {
    forall felts, offset, x {:trigger c.deserialize(felts, offset), c.serialize(x)} ::
      At(felts, offset, c.serialize(x)) ==> c.deserialize(felts, offset) == Ok(x)
  }

  /** A successful decode read exactly the encoding of what it returned. */
  ghost predicate Canonical<T>(c: Codec<T>) {
    forall felts, offset {:trigger c.deserialize(felts, offset)} ::
      c.deserialize(felts, offset).Ok? ==>
        At(felts, offset, c.serialize(c.deserialize(felts, offset).value))
  }

  ghost predicate Lawful<T(!new)>(c: Codec<T>) {
    SizeLaw(c) && RoundTrip(c) && Canonical(c)
  }

  lemma UseSizeLaw<T(!new)>(c: Codec<T>, x: T)
    requires SizeLaw(c)
    ensures |c.serialize(x)| == c.size(x)
  {
  }

  lemma UseRoundTrip<T(!new)>(c: Codec<T>, felts: seq<Felt>, offset: nat, x: T)
    requires RoundTrip(c) && At(felts, offset, c.serialize(x))
    ensures c.deserialize(felts, offset) == Ok(x)
  {
  }

  lemma UseCanonical<T>(c: Codec<T>, felts: seq<Felt>, offset: nat)
    requires Canonical(c) && c.deserialize(felts, offset).Ok?
    ensures At(felts, offset, c.serialize(c.deserialize(felts, offset).value))
  {
  }

  /** An encoding `a + b` occurs at `offset` exactly when `a` occurs there and
      `b` follows it. */
  lemma AtAppend(felts: seq<Felt>, offset: nat, a: seq<Felt>, b: seq<Felt>)
    ensures At(felts, offset, a + b) <==> At(felts, offset, a) && At(felts, offset + |a|, b)
  {
    if offset + |a| + |b| <= |felts| {
      assert felts[offset..offset + |a| + |b|]
          == felts[offset..offset + |a|] + felts[offset + |a|..offset + |a| + |b|];
      if At(felts, offset, a + b) {
        assert felts[offset..offset + |a|] == (a + b)[..|a|] == a;
        assert felts[offset + |a|..offset + |a| + |b|] == (a + b)[|a|..] == b;
      }
    }
  }

  /** An encoding written after any prefix and before any suffix occurs there. */
  lemma AtEmbedded(prefix: seq<Felt>, e: seq<Felt>, suffix: seq<Felt>)
    ensures At(prefix + e + suffix, |prefix|, e)
  {
    assert (prefix + e + suffix)[|prefix|..|prefix| + |e|] == e;
  }

  /** An encoding that occurs in `felts` still occurs once felts are appended. */
  lemma AtExtend(felts: seq<Felt>, offset: nat, e: seq<Felt>, extra: seq<Felt>)
    requires At(felts, offset, e)
    ensures At(felts + extra, offset, e)
  {
    assert (felts + extra)[offset..offset + |e|] == felts[offset..offset + |e|];
  }

  // ---------------------------------------------------------------------------
  // A single felt: one element, read at the offset.

  function FeltSize(x: Felt): nat { 1 }

  function FeltSerialize(x: Felt): seq<Felt> { [x] }

  function FeltDeserialize(felts: seq<Felt>, offset: nat): (r: Result<Felt>)
    ensures r.Ok? <==> offset < |felts|
    ensures r.Ok? ==> r.value == felts[offset]
  {
    if offset < |felts| then Ok(felts[offset]) else Err(OutOfBounds(offset))
  }

  const FeltCodec: Codec<Felt> := Codec(FeltSize, FeltSerialize, FeltDeserialize)

  lemma FeltCodecLawful()
    ensures Lawful(FeltCodec)
  {
    forall felts: seq<Felt>, offset: nat, x: Felt | At(felts, offset, FeltCodec.serialize(x))
      ensures FeltCodec.deserialize(felts, offset) == Ok(x)
    {
      assert felts[offset..offset + 1][0] == x;
    }
    forall felts: seq<Felt>, offset: nat | FeltCodec.deserialize(felts, offset).Ok?
      ensures At(felts, offset, FeltCodec.serialize(FeltCodec.deserialize(felts, offset).value))
    {
      assert felts[offset..offset + 1] == [felts[offset]];
    }
  }

  // ---------------------------------------------------------------------------
  // The Cairo array (`Vec<T>`): its length as one felt, then its elements in
  // order. Decoding reads the length, then each element at the running offset,
  // advancing the offset by that element's serialized size.

  function ElemsSize<T>(c: Codec<T>, xs: seq<T>): nat {
    if xs == [] then 0 else c.size(xs[0]) + ElemsSize(c, xs[1..])
  }

  function ElemsSerialize<T>(c: Codec<T>, xs: seq<T>): seq<Felt> {
    if xs == [] then [] else c.serialize(xs[0]) + ElemsSerialize(c, xs[1..])
  }

  function ElemsDeserialize<T>(c: Codec<T>, felts: seq<Felt>, offset: nat, n: nat): Result<seq<T>>
    decreases n
  {
    if n == 0 then Ok([])
    else
      var x :- c.deserialize(felts, offset);
      var rest :- ElemsDeserialize(c, felts, offset + c.size(x), n - 1);
      Ok([x] + rest)
  }

  function ArraySize<T>(c: Codec<T>, xs: seq<T>): nat {
    1 + ElemsSize(c, xs)
  }

  function ArraySerialize<T>(c: Codec<T>, xs: seq<T>): seq<Felt> {
    [|xs|] + ElemsSerialize(c, xs)
  }

  function ArrayDeserialize<T>(c: Codec<T>, felts: seq<Felt>, offset: nat): Result<seq<T>> {
    if offset < |felts| then ElemsDeserialize(c, felts, offset + 1, felts[offset])
    else Err(OutOfBounds(offset))
  }

  function ArrayCodec<T>(c: Codec<T>): Codec<seq<T>> {
    Codec(xs => ArraySize(c, xs),
          xs => ArraySerialize(c, xs),
          (felts, offset) => ArrayDeserialize(c, felts, offset))
  }

  lemma {:induction false} ElemsSizeLaw<T(!new)>(c: Codec<T>, xs: seq<T>)
    requires SizeLaw(c)
    ensures |ElemsSerialize(c, xs)| == ElemsSize(c, xs)
  {
    if xs != [] {
      UseSizeLaw(c, xs[0]);
      ElemsSizeLaw(c, xs[1..]);
    }
  }

  /** Where the encoding of a non-empty run occurs, the first element's
      encoding occurs, followed by the encoding of the rest. */
  lemma ElemsAtCons<T>(c: Codec<T>, felts: seq<Felt>, offset: nat, xs: seq<T>)
    requires xs != [] && At(felts, offset, ElemsSerialize(c, xs))
    ensures At(felts, offset, c.serialize(xs[0]))
    ensures At(felts, offset + |c.serialize(xs[0])|, ElemsSerialize(c, xs[1..]))
  {
    AtAppend(felts, offset, c.serialize(xs[0]), ElemsSerialize(c, xs[1..]));
  }

  /** One instance of the size and round-trip laws. */
  lemma RoundTripAt<T(!new)>(c: Codec<T>, felts: seq<Felt>, offset: nat, x: T)
    requires SizeLaw(c) && RoundTrip(c) && At(felts, offset, c.serialize(x))
    ensures c.deserialize(felts, offset) == Ok(x) && |c.serialize(x)| == c.size(x)
  {
    UseRoundTrip(c, felts, offset, x);
    UseSizeLaw(c, x);
  }

  /** One instance of the size and canonical laws. */
  lemma CanonicalAt<T(!new)>(c: Codec<T>, felts: seq<Felt>, offset: nat, x: T)
    requires SizeLaw(c) && Canonical(c) && c.deserialize(felts, offset) == Ok(x)
    ensures At(felts, offset, c.serialize(x)) && |c.serialize(x)| == c.size(x)
  {
    UseCanonical(c, felts, offset);
    UseSizeLaw(c, x);
  }

  /** Reading `n > 0` elements is reading one element and then `n - 1` more
      right after it. */
  lemma ElemsDeserializeStep<T>(c: Codec<T>, felts: seq<Felt>, offset: nat, n: nat, x: T, rest: seq<T>)
    requires n > 0
    requires c.deserialize(felts, offset) == Ok(x)
    requires ElemsDeserialize(c, felts, offset + c.size(x), n - 1) == Ok(rest)
    ensures ElemsDeserialize(c, felts, offset, n) == Ok([x] + rest)
  {
  }

  lemma {:induction false} ElemsRoundTrip<T(!new)>(c: Codec<T>, felts: seq<Felt>, offset: nat, xs: seq<T>)
    requires SizeLaw(c) && RoundTrip(c)
    requires At(felts, offset, ElemsSerialize(c, xs))
    ensures ElemsDeserialize(c, felts, offset, |xs|) == Ok(xs)
    decreases |xs|
  {
    if xs != [] {
      var x, rest := xs[0], xs[1..];
      ElemsAtCons(c, felts, offset, xs);
      RoundTripAt(c, felts, offset, x);
      ElemsRoundTrip(c, felts, offset + c.size(x), rest);
      ElemsDeserializeStep(c, felts, offset, |xs|, x, rest);
      assert [x] + rest == xs;
    }
  }

  lemma {:induction false} ElemsCanonical<T(!new)>(c: Codec<T>, felts: seq<Felt>, offset: nat, n: nat)
    requires SizeLaw(c) && Canonical(c)
    requires offset <= |felts| && ElemsDeserialize(c, felts, offset, n).Ok?
    ensures |ElemsDeserialize(c, felts, offset, n).value| == n
    ensures At(felts, offset, ElemsSerialize(c, ElemsDeserialize(c, felts, offset, n).value))
    decreases n
  {
    if n > 0 {
      var x := c.deserialize(felts, offset).value;
      var xs := ElemsDeserialize(c, felts, offset, n).value;
      UseCanonical(c, felts, offset);
      UseSizeLaw(c, x);
      ElemsCanonical(c, felts, offset + c.size(x), n - 1);
      var rest := ElemsDeserialize(c, felts, offset + c.size(x), n - 1).value;
      assert xs == [x] + rest;
      assert xs[0] == x && xs[1..] == rest;
      AtAppend(felts, offset, c.serialize(x), ElemsSerialize(c, rest));
    }
  }

  /** A length-prefixed array decodes wherever its encoding occurs. */
  lemma ArrayRoundTrip<T(!new)>(c: Codec<T>, felts: seq<Felt>, offset: nat, xs: seq<T>)
    requires SizeLaw(c) && RoundTrip(c)
    requires At(felts, offset, ArraySerialize(c, xs))
    ensures ArrayDeserialize(c, felts, offset) == Ok(xs)
  {
    AtAppend(felts, offset, [|xs|], ElemsSerialize(c, xs));
    assert felts[offset..offset + 1][0] == |xs|;
    ElemsRoundTrip(c, felts, offset + 1, xs);
  }

  /** A successful array decode read exactly the encoding of its result. */
  lemma ArrayCanonical<T(!new)>(c: Codec<T>, felts: seq<Felt>, offset: nat)
    requires SizeLaw(c) && Canonical(c)
    requires ArrayDeserialize(c, felts, offset).Ok?
    ensures At(felts, offset, ArraySerialize(c, ArrayDeserialize(c, felts, offset).value))
  {
    var n := felts[offset];
    ElemsCanonical(c, felts, offset + 1, n);
    var xs := ElemsDeserialize(c, felts, offset + 1, n).value;
    assert felts[offset..offset + 1] == [|xs|];
    AtAppend(felts, offset, [|xs|], ElemsSerialize(c, xs));
  }

  /** The length-prefixed array codec is lawful whenever its element codec is:
      its size is the length of its encoding, it decodes its own encoding
      wherever that occurs, and a successful decode read exactly an encoding. */
  lemma ArrayCodecLawful<T(!new)>(c: Codec<T>)
    requires Lawful(c)
    ensures Lawful(ArrayCodec(c))
  {
    var a := ArrayCodec(c);
    forall xs ensures |a.serialize(xs)| == a.size(xs) {
      ElemsSizeLaw(c, xs);
    }
    forall felts: seq<Felt>, offset: nat, xs: seq<T> | At(felts, offset, a.serialize(xs))
      ensures a.deserialize(felts, offset) == Ok(xs)
    {
      ArrayRoundTrip(c, felts, offset, xs);
    }
    forall felts: seq<Felt>, offset: nat | a.deserialize(felts, offset).Ok?
      ensures At(felts, offset, a.serialize(a.deserialize(felts, offset).value))
    {
      ArrayCanonical(c, felts, offset);
    }
  }
}
