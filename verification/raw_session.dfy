/** The session token of the Cartridge controller account and the SNIP-12
    (Starknet typed data, revision 1) hashes of a session.

    The token is serialised as the concatenation of its five components, in
    the fixed order session, session authorization, session signature,
    guardian signature, proofs, and deserialised by reading the same five
    components back with a running offset. The codecs of `Session` and of
    `SignerSignature` are generated from the account contract's ABI; they are
    parameters here, assumed lawful. The two felt vectors use the concrete
    length-prefixed Cairo array codec. */
module RawSession {
  import opened CairoSerde

  const U64_LIMIT: nat := 0x1_0000_0000_0000_0000

  type U64 = x: nat | x < U64_LIMIT

  /** The on-chain `Session` struct (ABI-generated). */
  datatype Session = Session(
    expiresAt: U64,
    allowedMethodsRoot: Felt,
    metadataHash: Felt,
    sessionKeyGuid: Felt)

  /** The ABI-generated signer signature; its shape is not part of this model. */
  type SignerSignature(==, !new)

  datatype RawSessionToken = RawSessionToken(
    session: Session,
    sessionAuthorization: seq<Felt>,
    sessionSignature: SignerSignature,
    guardianSignature: SignerSignature,
    proofs: seq<seq<Felt>>)

  /** `Vec<Felt>` */
  function FeltArray(): Codec<seq<Felt>> { ArrayCodec(FeltCodec) }

  /** `Vec<Vec<Felt>>` */
  function FeltArrays(): Codec<seq<seq<Felt>>> { ArrayCodec(FeltArray()) }

  lemma FeltArraysLawful()
    ensures Lawful(FeltArray()) && Lawful(FeltArrays())
  {
    FeltCodecLawful();
    ArrayCodecLawful(FeltCodec);
    ArrayCodecLawful(FeltArray());
  }

  /** One instance of the laws of the `Vec<Felt>` codec. */
  lemma FeltArrayAt(felts: seq<Felt>, offset: nat, xs: seq<Felt>)
    ensures |FeltArray().serialize(xs)| == FeltArray().size(xs)
    ensures At(felts, offset, FeltArray().serialize(xs)) ==> FeltArray().deserialize(felts, offset) == Ok(xs)
    ensures FeltArray().deserialize(felts, offset) == Ok(xs) ==> At(felts, offset, FeltArray().serialize(xs))
  {
    FeltArraysLawful();
    UseSizeLaw(FeltArray(), xs);
    if At(felts, offset, FeltArray().serialize(xs)) {
      UseRoundTrip(FeltArray(), felts, offset, xs);
    }
    if FeltArray().deserialize(felts, offset) == Ok(xs) {
      UseCanonical(FeltArray(), felts, offset);
    }
  }

  /** One instance of the laws of the `Vec<Vec<Felt>>` codec. */
  lemma FeltArraysAt(felts: seq<Felt>, offset: nat, xss: seq<seq<Felt>>)
    ensures |FeltArrays().serialize(xss)| == FeltArrays().size(xss)
    ensures At(felts, offset, FeltArrays().serialize(xss)) ==> FeltArrays().deserialize(felts, offset) == Ok(xss)
    ensures FeltArrays().deserialize(felts, offset) == Ok(xss) ==> At(felts, offset, FeltArrays().serialize(xss))
  {
    FeltArraysLawful();
    UseSizeLaw(FeltArrays(), xss);
    if At(felts, offset, FeltArrays().serialize(xss)) {
      UseRoundTrip(FeltArrays(), felts, offset, xss);
    }
    if FeltArrays().deserialize(felts, offset) == Ok(xss) {
      UseCanonical(FeltArrays(), felts, offset);
    }
  }

  /** The concatenation of a list of encodings, in list order. */
  function Concat(parts: seq<seq<Felt>>): seq<Felt> {
    if parts == [] then [] else parts[0] + Concat(parts[1..])
  }

  // ---------------------------------------------------------------------------
  // The token codec, parameterised by the session codec `sc` and the signer
  // signature codec `gc`.

  function TokenSize(sc: Codec<Session>, gc: Codec<SignerSignature>, t: RawSessionToken): nat {
    sc.size(t.session)
    + FeltArray().size(t.sessionAuthorization)
    + gc.size(t.sessionSignature)
    + gc.size(t.guardianSignature)
    + FeltArrays().size(t.proofs)
  }

  function TokenSerialize(sc: Codec<Session>, gc: Codec<SignerSignature>, t: RawSessionToken): seq<Felt> {
    Concat([
      sc.serialize(t.session),
      FeltArray().serialize(t.sessionAuthorization),
      gc.serialize(t.sessionSignature),
      gc.serialize(t.guardianSignature),
      FeltArrays().serialize(t.proofs)])
  }

  /** Reads the five components in serialisation order, each at the offset
      reached by adding the serialized sizes of those before it. The first
      component that fails to decode ends the read with its error. */
  function TokenDeserialize(sc: Codec<Session>, gc: Codec<SignerSignature>, felts: seq<Felt>, offset: nat)
    : Result<RawSessionToken>
  {
    var session :- sc.deserialize(felts, offset);
    var offset := offset + sc.size(session);
    var sessionAuthorization :- FeltArray().deserialize(felts, offset);
    var offset := offset + FeltArray().size(sessionAuthorization);
    var sessionSignature :- gc.deserialize(felts, offset);
    var offset := offset + gc.size(sessionSignature);
    var guardianSignature :- gc.deserialize(felts, offset);
    var offset := offset + gc.size(guardianSignature);
    var proofs :- FeltArrays().deserialize(felts, offset);
    Ok(RawSessionToken(session, sessionAuthorization, sessionSignature, guardianSignature, proofs))
  }

  function TokenCodec(sc: Codec<Session>, gc: Codec<SignerSignature>): Codec<RawSessionToken> {
    Codec(t => TokenSize(sc, gc, t),
          t => TokenSerialize(sc, gc, t),
          (felts, offset) => TokenDeserialize(sc, gc, felts, offset))
  }

  /** `cairo_deserialize`: the component reads thread one mutable offset. */
  method CairoDeserialize(sc: Codec<Session>, gc: Codec<SignerSignature>, felts: seq<Felt>, offset: nat)
    returns (r: Result<RawSessionToken>)
    ensures r == TokenDeserialize(sc, gc, felts, offset)
  {
    var offset := offset;
    var session :- sc.deserialize(felts, offset);
    offset := offset + sc.size(session);
    var sessionAuthorization :- FeltArray().deserialize(felts, offset);
    offset := offset + FeltArray().size(sessionAuthorization);
    var sessionSignature :- gc.deserialize(felts, offset);
    offset := offset + gc.size(sessionSignature);
    var guardianSignature :- gc.deserialize(felts, offset);
    offset := offset + gc.size(guardianSignature);
    var proofs :- FeltArrays().deserialize(felts, offset);
    r := Ok(RawSessionToken(session, sessionAuthorization, sessionSignature, guardianSignature, proofs));
  }

  /** The serialisation is the five component encodings, in the fixed order
      session, authorization, session signature, guardian signature, proofs. */
  lemma TokenSerializeOrder(sc: Codec<Session>, gc: Codec<SignerSignature>, t: RawSessionToken)
    ensures TokenSerialize(sc, gc, t)
         == sc.serialize(t.session)
          + FeltArray().serialize(t.sessionAuthorization)
          + gc.serialize(t.sessionSignature)
          + gc.serialize(t.guardianSignature)
          + FeltArrays().serialize(t.proofs)
  {
    var parts := [
      sc.serialize(t.session),
      FeltArray().serialize(t.sessionAuthorization),
      gc.serialize(t.sessionSignature),
      gc.serialize(t.guardianSignature),
      FeltArrays().serialize(t.proofs)];
    assert Concat(parts[4..]) == parts[4] by { assert parts[5..] == []; }
    assert Concat(parts[3..]) == parts[3] + parts[4] by { assert parts[3..][1..] == parts[4..]; }
    assert Concat(parts[2..]) == parts[2] + parts[3] + parts[4] by { assert parts[2..][1..] == parts[3..]; }
    assert Concat(parts[1..]) == parts[1] + parts[2] + parts[3] + parts[4] by { assert parts[1..][1..] == parts[2..]; }
  }

  /** The serialized size of a token is the length of its serialisation, given
      the same law of the two abstract component codecs. */
  lemma TokenSizeLaw(sc: Codec<Session>, gc: Codec<SignerSignature>, t: RawSessionToken)
    requires SizeLaw(sc) && SizeLaw(gc)
    ensures |TokenSerialize(sc, gc, t)| == TokenSize(sc, gc, t)
  {
    TokenSerializeOrder(sc, gc, t);
    UseSizeLaw(sc, t.session);
    FeltArrayAt([], 0, t.sessionAuthorization);
    UseSizeLaw(gc, t.sessionSignature);
    UseSizeLaw(gc, t.guardianSignature);
    FeltArraysAt([], 0, t.proofs);
  }

  /** The five encodings occur one after another wherever their
      concatenation does. */
  lemma ComponentsAt(felts: seq<Felt>, offset: nat, e0: seq<Felt>, e1: seq<Felt>, e2: seq<Felt>,
                     e3: seq<Felt>, e4: seq<Felt>)
    ensures At(felts, offset, e0 + e1 + e2 + e3 + e4) <==>
      && At(felts, offset, e0)
      && At(felts, offset + |e0|, e1)
      && At(felts, offset + |e0| + |e1|, e2)
      && At(felts, offset + |e0| + |e1| + |e2|, e3)
      && At(felts, offset + |e0| + |e1| + |e2| + |e3|, e4)
  {
    AtAppend(felts, offset, e0 + e1 + e2 + e3, e4);
    AtAppend(felts, offset, e0 + e1 + e2, e3);
    AtAppend(felts, offset, e0 + e1, e2);
    AtAppend(felts, offset, e0, e1);
  }

  /** Deserialising succeeds with `t` when each component decodes to the
      corresponding field of `t` at the running offset. */
  lemma DeserializeFromComponents(sc: Codec<Session>, gc: Codec<SignerSignature>, felts: seq<Felt>,
                                  offset: nat, t: RawSessionToken)
    requires sc.deserialize(felts, offset) == Ok(t.session)
    requires FeltArray().deserialize(felts, offset + sc.size(t.session)) == Ok(t.sessionAuthorization)
    requires gc.deserialize(felts, offset + sc.size(t.session) + FeltArray().size(t.sessionAuthorization))
          == Ok(t.sessionSignature)
    requires gc.deserialize(felts, offset + sc.size(t.session) + FeltArray().size(t.sessionAuthorization)
                                   + gc.size(t.sessionSignature))
          == Ok(t.guardianSignature)
    requires FeltArrays().deserialize(felts, offset + sc.size(t.session) + FeltArray().size(t.sessionAuthorization)
                                             + gc.size(t.sessionSignature) + gc.size(t.guardianSignature))
          == Ok(t.proofs)
    ensures TokenDeserialize(sc, gc, felts, offset) == Ok(t)
  {
  }

  /** Deserialising succeeds with `t` when the session and the signatures
      decode at their running offsets and the two arrays' encodings occur at
      theirs. */
  lemma DecodesFromComponents(sc: Codec<Session>, gc: Codec<SignerSignature>, felts: seq<Felt>,
                              offset: nat, t: RawSessionToken)
    requires sc.deserialize(felts, offset) == Ok(t.session)
    requires At(felts, offset + sc.size(t.session), FeltArray().serialize(t.sessionAuthorization))
    requires gc.deserialize(felts, offset + sc.size(t.session) + FeltArray().size(t.sessionAuthorization))
          == Ok(t.sessionSignature)
    requires gc.deserialize(felts, offset + sc.size(t.session) + FeltArray().size(t.sessionAuthorization)
                                   + gc.size(t.sessionSignature))
          == Ok(t.guardianSignature)
    requires At(felts, offset + sc.size(t.session) + FeltArray().size(t.sessionAuthorization)
                       + gc.size(t.sessionSignature) + gc.size(t.guardianSignature),
                FeltArrays().serialize(t.proofs))
    ensures TokenDeserialize(sc, gc, felts, offset) == Ok(t)
  {
    var o1 := offset + sc.size(t.session);
    var o4 := o1 + FeltArray().size(t.sessionAuthorization) + gc.size(t.sessionSignature)
              + gc.size(t.guardianSignature);
    FeltArrayAt(felts, o1, t.sessionAuthorization);
    FeltArraysAt(felts, o4, t.proofs);
    DeserializeFromComponents(sc, gc, felts, offset, t);
  }

  /** Where a token's serialisation occurs, its five component encodings
      occur one after another, each at the sum of the sizes before it. */
  lemma ComponentsAtOffsets(sc: Codec<Session>, gc: Codec<SignerSignature>, felts: seq<Felt>,
                            offset: nat, t: RawSessionToken)
    requires |sc.serialize(t.session)| == sc.size(t.session)
    requires |gc.serialize(t.sessionSignature)| == gc.size(t.sessionSignature)
    requires At(felts, offset, TokenSerialize(sc, gc, t))
    ensures At(felts, offset, sc.serialize(t.session))
    ensures At(felts, offset + sc.size(t.session), FeltArray().serialize(t.sessionAuthorization))
    ensures At(felts, offset + sc.size(t.session) + FeltArray().size(t.sessionAuthorization),
               gc.serialize(t.sessionSignature))
    ensures At(felts, offset + sc.size(t.session) + FeltArray().size(t.sessionAuthorization)
                      + gc.size(t.sessionSignature),
               gc.serialize(t.guardianSignature))
    ensures At(felts, offset + sc.size(t.session) + FeltArray().size(t.sessionAuthorization)
                      + gc.size(t.sessionSignature) + |gc.serialize(t.guardianSignature)|,
               FeltArrays().serialize(t.proofs))
  {
    TokenSerializeOrder(sc, gc, t);
    ComponentsAt(felts, offset,
      sc.serialize(t.session), FeltArray().serialize(t.sessionAuthorization),
      gc.serialize(t.sessionSignature), gc.serialize(t.guardianSignature),
      FeltArrays().serialize(t.proofs));
    FeltArrayAt(felts, offset, t.sessionAuthorization);
  }

  /** Wherever a token's serialisation occurs, deserialising there gives the
      token back: each component is read at exactly the offset where
      serialisation wrote it. */
  lemma TokenRoundTrip(sc: Codec<Session>, gc: Codec<SignerSignature>, felts: seq<Felt>, offset: nat, t: RawSessionToken)
    requires Lawful(sc) && Lawful(gc)
    requires At(felts, offset, TokenSerialize(sc, gc, t))
    ensures TokenDeserialize(sc, gc, felts, offset) == Ok(t)
  {
    UseSizeLaw(sc, t.session);
    UseSizeLaw(gc, t.sessionSignature);
    UseSizeLaw(gc, t.guardianSignature);
    ComponentsAtOffsets(sc, gc, felts, offset, t);
    var o2 := offset + sc.size(t.session) + FeltArray().size(t.sessionAuthorization);
    var o3 := o2 + gc.size(t.sessionSignature);
    UseRoundTrip(sc, felts, offset, t.session);
    UseRoundTrip(gc, felts, o2, t.sessionSignature);
    UseRoundTrip(gc, felts, o3, t.guardianSignature);
    DecodesFromComponents(sc, gc, felts, offset, t);
  }

  /** The token's serialisation occurs wherever its five component
      encodings occur one after another. */
  lemma SerializedFromComponents(sc: Codec<Session>, gc: Codec<SignerSignature>, felts: seq<Felt>,
                                 offset: nat, t: RawSessionToken)
    requires |sc.serialize(t.session)| == sc.size(t.session)
    requires |FeltArray().serialize(t.sessionAuthorization)| == FeltArray().size(t.sessionAuthorization)
    requires |gc.serialize(t.sessionSignature)| == gc.size(t.sessionSignature)
    requires |gc.serialize(t.guardianSignature)| == gc.size(t.guardianSignature)
    requires At(felts, offset, sc.serialize(t.session))
    requires At(felts, offset + sc.size(t.session), FeltArray().serialize(t.sessionAuthorization))
    requires At(felts, offset + sc.size(t.session) + FeltArray().size(t.sessionAuthorization),
                gc.serialize(t.sessionSignature))
    requires At(felts, offset + sc.size(t.session) + FeltArray().size(t.sessionAuthorization)
                       + gc.size(t.sessionSignature),
                gc.serialize(t.guardianSignature))
    requires At(felts, offset + sc.size(t.session) + FeltArray().size(t.sessionAuthorization)
                       + gc.size(t.sessionSignature) + gc.size(t.guardianSignature),
                FeltArrays().serialize(t.proofs))
    ensures At(felts, offset, TokenSerialize(sc, gc, t))
  {
    TokenSerializeOrder(sc, gc, t);
    ComponentsAt(felts, offset,
      sc.serialize(t.session), FeltArray().serialize(t.sessionAuthorization),
      gc.serialize(t.sessionSignature), gc.serialize(t.guardianSignature),
      FeltArrays().serialize(t.proofs));
  }

  /** Components decoded one after another, each at the offset where the
      previous one ended, lie exactly where the token's serialisation puts
      them. */
  lemma SerializedFromDecodes(sc: Codec<Session>, gc: Codec<SignerSignature>, felts: seq<Felt>,
                              offset: nat, t: RawSessionToken)
    requires SizeLaw(sc) && Canonical(sc) && SizeLaw(gc) && Canonical(gc)
    requires sc.deserialize(felts, offset) == Ok(t.session)
    requires FeltArray().deserialize(felts, offset + sc.size(t.session)) == Ok(t.sessionAuthorization)
    requires gc.deserialize(felts, offset + sc.size(t.session) + FeltArray().size(t.sessionAuthorization))
          == Ok(t.sessionSignature)
    requires gc.deserialize(felts, offset + sc.size(t.session) + FeltArray().size(t.sessionAuthorization)
                                   + gc.size(t.sessionSignature))
          == Ok(t.guardianSignature)
    requires FeltArrays().deserialize(felts, offset + sc.size(t.session) + FeltArray().size(t.sessionAuthorization)
                                             + gc.size(t.sessionSignature) + gc.size(t.guardianSignature))
          == Ok(t.proofs)
    ensures At(felts, offset, TokenSerialize(sc, gc, t))
  {
    var o1 := offset + sc.size(t.session);
    var o2 := o1 + FeltArray().size(t.sessionAuthorization);
    var o3 := o2 + gc.size(t.sessionSignature);
    var o4 := o3 + gc.size(t.guardianSignature);
    CanonicalAt(sc, felts, offset, t.session);
    FeltArrayAt(felts, o1, t.sessionAuthorization);
    CanonicalAt(gc, felts, o2, t.sessionSignature);
    CanonicalAt(gc, felts, o3, t.guardianSignature);
    FeltArraysAt(felts, o4, t.proofs);
    SerializedFromComponents(sc, gc, felts, offset, t);
  }

  /** A successful deserialisation read exactly the serialisation of the token
      it returned, `TokenSize` felts from the offset; whatever follows is
      ignored. */
  lemma TokenCanonical(sc: Codec<Session>, gc: Codec<SignerSignature>, felts: seq<Felt>, offset: nat)
    requires SizeLaw(sc) && Canonical(sc) && SizeLaw(gc) && Canonical(gc)
    requires TokenDeserialize(sc, gc, felts, offset).Ok?
    ensures At(felts, offset, TokenSerialize(sc, gc, TokenDeserialize(sc, gc, felts, offset).value))
  {
    DeserializeReadsInOrder(sc, gc, felts, offset);
    SerializedFromDecodes(sc, gc, felts, offset, TokenDeserialize(sc, gc, felts, offset).value);
  }

  /** Given lawful component codecs, the token codec is lawful itself. */
  lemma TokenCodecLawful(sc: Codec<Session>, gc: Codec<SignerSignature>)
    requires Lawful(sc) && Lawful(gc)
    ensures Lawful(TokenCodec(sc, gc))
  {
    var c := TokenCodec(sc, gc);
    forall t ensures |c.serialize(t)| == c.size(t) {
      TokenSizeLaw(sc, gc, t);
    }
    forall felts: seq<Felt>, offset: nat, t | At(felts, offset, c.serialize(t))
      ensures c.deserialize(felts, offset) == Ok(t)
    {
      TokenRoundTrip(sc, gc, felts, offset, t);
    }
    forall felts: seq<Felt>, offset: nat | c.deserialize(felts, offset).Ok?
      ensures At(felts, offset, c.serialize(c.deserialize(felts, offset).value))
    {
      TokenCanonical(sc, gc, felts, offset);
    }
  }

  /** The round trip in the form callers use: a token serialised after any
      prefix, with anything after it, deserialises at the prefix's length. */
  lemma DeserializeAfterPrefix(sc: Codec<Session>, gc: Codec<SignerSignature>,
                               prefix: seq<Felt>, t: RawSessionToken, suffix: seq<Felt>)
    requires Lawful(sc) && Lawful(gc)
    ensures TokenDeserialize(sc, gc, prefix + TokenSerialize(sc, gc, t) + suffix, |prefix|) == Ok(t)
  {
    AtEmbedded(prefix, TokenSerialize(sc, gc, t), suffix);
    TokenRoundTrip(sc, gc, prefix + TokenSerialize(sc, gc, t) + suffix, |prefix|, t);
  }

  /** No end-of-input check: felts after the proofs never change a successful
      result. */
  lemma DeserializeIgnoresTrailing(sc: Codec<Session>, gc: Codec<SignerSignature>,
                                   felts: seq<Felt>, offset: nat, extra: seq<Felt>)
    requires Lawful(sc) && Lawful(gc)
    requires TokenDeserialize(sc, gc, felts, offset).Ok?
    ensures TokenDeserialize(sc, gc, felts + extra, offset) == TokenDeserialize(sc, gc, felts, offset)
  {
    var t := TokenDeserialize(sc, gc, felts, offset).value;
    TokenCanonical(sc, gc, felts, offset);
    AtExtend(felts, offset, TokenSerialize(sc, gc, t), extra);
    TokenRoundTrip(sc, gc, felts + extra, offset, t);
  }

  /** A successful read took each component at the offset reached by adding
      the serialized sizes of the components decoded before it. */
  lemma DeserializeReadsInOrder(sc: Codec<Session>, gc: Codec<SignerSignature>, felts: seq<Felt>, offset: nat)
    requires TokenDeserialize(sc, gc, felts, offset).Ok?
    ensures var t := TokenDeserialize(sc, gc, felts, offset).value;
      var o1 := offset + sc.size(t.session);
      var o2 := o1 + FeltArray().size(t.sessionAuthorization);
      var o3 := o2 + gc.size(t.sessionSignature);
      var o4 := o3 + gc.size(t.guardianSignature);
      && sc.deserialize(felts, offset) == Ok(t.session)
      && FeltArray().deserialize(felts, o1) == Ok(t.sessionAuthorization)
      && gc.deserialize(felts, o2) == Ok(t.sessionSignature)
      && gc.deserialize(felts, o3) == Ok(t.guardianSignature)
      && FeltArrays().deserialize(felts, o4) == Ok(t.proofs)
      && o4 + FeltArrays().size(t.proofs) == offset + TokenSize(sc, gc, t)
  {
  }

  /** The first component that fails to decode ends the read with its own
      error; no partial token is produced. */
  lemma DeserializeStopsAtFirstError(sc: Codec<Session>, gc: Codec<SignerSignature>, felts: seq<Felt>, offset: nat)
    ensures var r, d0 := TokenDeserialize(sc, gc, felts, offset), sc.deserialize(felts, offset);
      && (d0.Err? ==> r == Err(d0.error))
      && (d0.Ok? ==>
        var o1 := offset + sc.size(d0.value);
        var d1 := FeltArray().deserialize(felts, o1);
        && (d1.Err? ==> r == Err(d1.error))
        && (d1.Ok? ==>
          var o2 := o1 + FeltArray().size(d1.value);
          var d2 := gc.deserialize(felts, o2);
          && (d2.Err? ==> r == Err(d2.error))
          && (d2.Ok? ==>
            var o3 := o2 + gc.size(d2.value);
            var d3 := gc.deserialize(felts, o3);
            && (d3.Err? ==> r == Err(d3.error))
            && (d3.Ok? ==>
              var d4 := FeltArrays().deserialize(felts, o3 + gc.size(d3.value));
              (d4.Err? ==> r == Err(d4.error))))))
  {
  }

  // ---------------------------------------------------------------------------
  // SNIP-12 revision 1 hashes of a session. Poseidon, the `selector!` macro
  // (starknet-keccak of a string) and the struct hash of `StarknetDomain` are
  // cryptographic primitives outside this model: they are parameters.

  datatype StarknetDomain = StarknetDomain(name: Felt, version: Felt, chainId: Felt, revision: Felt)

  datatype HashPrimitives = HashPrimitives(
    poseidonHashMany: seq<Felt> -> Felt,
    selector: string -> Felt,
    domainStructHash: StarknetDomain -> Felt)

  /** No two distinct inputs hash alike: the idealisation under which a hash
      commits to everything it was given. */
  ghost predicate CollisionFree(h: seq<Felt> -> Felt) {
    forall a, b {:trigger h(a), h(b)} :: h(a) == h(b) ==> a == b
  }

  function Pow256(n: nat): (r: nat)
    ensures r > 0
  {
    if n == 0 then 1 else 256 * Pow256(n - 1)
  }

  /** At most 31 ASCII characters: what `short_string!` accepts. */
  predicate IsShortString(s: string) {
    |s| <= 31 && forall i :: 0 <= i < |s| ==> s[i] as int < 128
  }

  /** `short_string!`: the characters' codes read as a big-endian base-256 number. */
  function ShortString(s: string): (f: Felt)
    requires IsShortString(s)
    ensures f < Pow256(|s|)
  {
    if s == [] then 0 else ShortString(s[..|s| - 1]) * 256 + s[|s| - 1] as int
  }

  const SESSION_TYPE: string :=
    "\"Session\"(\"Expires At\":\"timestamp\",\"Allowed Methods\":\"merkletree\",\"Metadata\":\"string\",\"Session Key\":\"felt\")"

  /** `TYPE_HASH_REV_1` of `Session`. */
  function SessionTypeHash(p: HashPrimitives): Felt {
    p.selector(SESSION_TYPE)
  }

  /** `get_struct_hash_rev_1` of a session. */
  function StructHash(p: HashPrimitives, s: Session): Felt {
    p.poseidonHashMany([SessionTypeHash(p), s.expiresAt, s.allowedMethodsRoot, s.metadataHash, s.sessionKeyGuid])
  }

  /** The domain a session message is signed under. */
  function SessionDomain(chainId: Felt): StarknetDomain {
    StarknetDomain(ShortString("SessionAccount.session"), ShortString("1"), chainId, 1)
  }

  /** `get_message_hash_rev_1` of a session, for a chain and an account contract. */
  function MessageHash(p: HashPrimitives, s: Session, chainId: Felt, contractAddress: Felt): Felt {
    p.poseidonHashMany([
      ShortString("StarkNet Message"),
      p.domainStructHash(SessionDomain(chainId)),
      contractAddress,
      StructHash(p, s)])
  }

  /** Under a collision-free Poseidon, the struct hash commits to all four
      session fields: two sessions hash alike exactly when they are equal. */
  lemma StructHashBindsSession(p: HashPrimitives, s1: Session, s2: Session)
    requires CollisionFree(p.poseidonHashMany)
    ensures StructHash(p, s1) == StructHash(p, s2) <==> s1 == s2
  {
    if StructHash(p, s1) == StructHash(p, s2) {
      var l1 := [SessionTypeHash(p), s1.expiresAt as Felt, s1.allowedMethodsRoot, s1.metadataHash, s1.sessionKeyGuid];
      var l2 := [SessionTypeHash(p), s2.expiresAt as Felt, s2.allowedMethodsRoot, s2.metadataHash, s2.sessionKeyGuid];
      assert l1 == l2;
      assert l1[1] == l2[1] && l1[2] == l2[2] && l1[3] == l2[3] && l1[4] == l2[4];
    }
  }

  /** Under a collision-free Poseidon, the message hash commits to the domain
      hash, the contract address and the session. */
  lemma MessageHashBinds(p: HashPrimitives, s1: Session, chain1: Felt, address1: Felt,
                         s2: Session, chain2: Felt, address2: Felt)
    requires CollisionFree(p.poseidonHashMany)
    ensures MessageHash(p, s1, chain1, address1) == MessageHash(p, s2, chain2, address2) <==>
      && p.domainStructHash(SessionDomain(chain1)) == p.domainStructHash(SessionDomain(chain2))
      && address1 == address2
      && s1 == s2
  {
    StructHashBindsSession(p, s1, s2);
    if MessageHash(p, s1, chain1, address1) == MessageHash(p, s2, chain2, address2) {
      var l1 := [ShortString("StarkNet Message"), p.domainStructHash(SessionDomain(chain1)), address1, StructHash(p, s1)];
      var l2 := [ShortString("StarkNet Message"), p.domainStructHash(SessionDomain(chain2)), address2, StructHash(p, s2)];
      assert l1 == l2;
      assert l1[1] == l2[1] && l1[2] == l2[2] && l1[3] == l2[3];
    }
  }

  /** The chain id reaches the message hash only through the domain hash:
      two chains whose session domains hash alike give the same message hash. */
  lemma MessageHashChainOnlyThroughDomain(p: HashPrimitives, s: Session, chain1: Felt, chain2: Felt,
                                          contractAddress: Felt)
    requires p.domainStructHash(SessionDomain(chain1)) == p.domainStructHash(SessionDomain(chain2))
    ensures MessageHash(p, s, chain1, contractAddress) == MessageHash(p, s, chain2, contractAddress)
  {
  }

  /** Under a collision-free Poseidon, a message hash (four inputs) never
      equals a session struct hash (five inputs). */
  lemma MessageHashIsNotStructHash(p: HashPrimitives, s: Session, chainId: Felt, contractAddress: Felt,
                                   s': Session)
    requires CollisionFree(p.poseidonHashMany)
    ensures MessageHash(p, s, chainId, contractAddress) != StructHash(p, s')
  {
  }
}
