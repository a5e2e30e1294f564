# Session tokens and the keychain header, in Dafny

This project models two pieces of the Cartridge controller.

**The raw session token of the account SDK.** A `RawSessionToken` holds a
session, the session authorization felts, two signer signatures (the
session key's and the guardian's) and the Merkle proofs. The model covers
three things:

- Its Cairo ABI codec: the serialized size, the serialization, and the
  deserialization from a felt slice at an offset.
- The SNIP-12 revision 1 struct hash of a session.
- The message hash of a session for a chain id and an account contract.

The felt codec and the length-prefixed Cairo array codec are defined
concretely and proved lawful. A lawful codec obeys three laws:

- its size is the length of its encoding;
- it decodes its own encoding wherever that encoding occurs;
- a successful decode read exactly an encoding.

The session and signer-signature codecs are generated code and are not
modelled. They are parameters, and lemmas assume them lawful. Poseidon, the
`selector!` macro and the domain struct hash are cryptographic primitives,
and they are parameters too. The `short_string!` encoding is modelled
concretely.

**The keychain's `Header` component.** The model covers:

- the disconnected and connected variants;
- the chain label;
- the sequencer network chosen for the balance query;
- the `balanceOf` request;
- how the uint256 answer becomes the stored ether text, through
  `uint256ToBN`, a base-10 `toString` and `formatEther` with 18 decimals;
- the loading indicator;
- the points-token account id;
- the score handed to the avatar hook.

The one piece of component state, `ethBalance`, is a class with one field.
A successful call sets it and a rejected call leaves it alone. Sequences of
settled calls are described by a fold.

Files:

- `cairo_serde.dfy` (module `CairoSerde`): the codec record, its laws, and
  the felt and array codecs.
- `raw_session.dfy` (module `RawSession`): the token codec and the session
  hashes.
- `decimal.dfy` (module `Decimal`), which covers three things:
  - base-10 printing;
  - `BigNumber.from` of a string;
  - `formatEther`, with an exact reading that inverts it.
- `header.dfy` (module `Header`): the header component.

Header.tsx:89-117 never resets `ethBalance` when `address` or `chainId`
changes. A balance shown for the previous address stays until a new call
succeeds. The promise has no rejection handler, so a failed call changes
nothing. Responses are not tagged with their request either, so the last
call to succeed sets the balance, whichever address it was issued for
(`Header.LastFulfilledWins`, `Header.SpinnerUntilFulfilled`).

## Model

| member | source | states |
|---|---|---|
| CairoSerde.FeltDeserialize | packages/account_sdk/src/account/session/raw_session.rs:81-89 | A felt decodes exactly when the offset is inside the slice, and the result is the felt at the offset. |
| CairoSerde.FeltCodecLawful | packages/account_sdk/src/account/session/raw_session.rs:58-98 | The single-felt codec used inside the `Vec<Felt>` fields obeys the size, round-trip and canonical laws. |
| CairoSerde.ElemsSizeLaw | packages/account_sdk/src/account/session/raw_session.rs:60 | The serialized size of a run of array elements equals the length of their encoding. |
| CairoSerde.ElemsRoundTrip | packages/account_sdk/src/account/session/raw_session.rs:83 | Reading as many elements as `xs` holds where their encoding occurs gives back `xs`. |
| CairoSerde.ElemsCanonical | packages/account_sdk/src/account/session/raw_session.rs:83 | Reading `n` elements successfully yields `n` elements, whose encoding is exactly what was read. |
| CairoSerde.ArrayCodecLawful | packages/account_sdk/src/account/session/raw_session.rs:60-63 | The length-prefixed Cairo array codec (`Vec<T>`) is lawful whenever its element codec is. This covers `Vec<Felt>` and `Vec<Vec<Felt>>`. |
| RawSession.FeltArraysLawful | packages/account_sdk/src/account/session/raw_session.rs:52 | The `Vec<Vec<Felt>>` codec of the proofs is lawful. |
| RawSession.CairoDeserialize | packages/account_sdk/src/account/session/raw_session.rs:77-98 | Reading components with one mutable offset, stopping at the first error, computes exactly `TokenDeserialize`. The lemmas below state its properties. |
| RawSession.TokenSerializeOrder | packages/account_sdk/src/account/session/raw_session.rs:66-75 | The encoding is the concatenation of the five component encodings in the order session, authorization, session signature, guardian signature, proofs. |
| RawSession.TokenSizeLaw | packages/account_sdk/src/account/session/raw_session.rs:58-64 | The serialized size (the sum of the five component sizes) equals the length of the serialization, provided the session and signature codecs obey the size law. |
| RawSession.TokenRoundTrip | packages/account_sdk/src/account/session/raw_session.rs:66-98 | Wherever a token's serialization occurs in a felt slice, deserializing at that offset gives back the token. |
| RawSession.TokenCanonical | packages/account_sdk/src/account/session/raw_session.rs:77-98 | A successful deserialization read exactly the serialization of the token it returned. |
| RawSession.TokenCodecLawful | packages/account_sdk/src/account/session/raw_session.rs:55-99 | The token codec is lawful when the session and signature codecs are. |
| RawSession.DeserializeAfterPrefix | packages/account_sdk/src/account/session/raw_session.rs:66-98 | A token serialized after any prefix and followed by anything deserializes at the prefix's length. |
| RawSession.DeserializeIgnoresTrailing | packages/account_sdk/src/account/session/raw_session.rs:77-98 | Felts after the proofs never change a successful result, because there is no end-of-input check. |
| RawSession.DeserializeReadsInOrder | packages/account_sdk/src/account/session/raw_session.rs:81-89 | On success, each component was decoded at the offset reached by adding the sizes of the components before it. The final offset is the start plus the token's size. |
| RawSession.DeserializeStopsAtFirstError | packages/account_sdk/src/account/session/raw_session.rs:81-89 | The first component that fails to decode ends the read with that component's own error. |
| RawSession.ShortString | packages/account_sdk/src/account/session/raw_session.rs:32-38 | `short_string!` reads at most 31 ASCII codes as a big-endian base-256 number, which is below 256^length. |
| RawSession.StructHashBindsSession | packages/account_sdk/src/account/session/raw_session.rs:14-26 | With a collision-free Poseidon, two sessions have the same struct hash exactly when all four fields are equal. |
| RawSession.MessageHashBinds | packages/account_sdk/src/account/session/raw_session.rs:30-43 | With a collision-free Poseidon, two message hashes are equal exactly when the domain hashes, the contract addresses and the sessions are all equal. |
| RawSession.MessageHashChainOnlyThroughDomain | packages/account_sdk/src/account/session/raw_session.rs:31-39 | The chain id reaches the message hash only through the struct hash of the domain. |
| RawSession.MessageHashIsNotStructHash | packages/account_sdk/src/account/session/raw_session.rs:15-21 | With a collision-free Poseidon, a message hash (four inputs) never equals a session struct hash (five inputs). |
| Decimal.ToDecimal | keychain/src/components/Header.tsx:107-112 | The base-10 `toString` of a number is a non-empty digit string with no leading zero (except "0") that denotes the number. |
| Decimal.FormatEtherExact | keychain/src/components/Header.tsx:106-113 | The `formatEther` text denotes exactly the wei amount it was printed from, divided by 10^18, with no precision lost at any size. |
| Decimal.FormatEtherWhole | keychain/src/components/Header.tsx:106 | A whole number of ether prints with the fraction ".0". |
| Decimal.TrimFractionValue | keychain/src/components/Header.tsx:106 | The printed fraction has between one and 18 digits. Read as that many decimal places, it equals the 18-digit padded fraction. |
| Decimal.DecimalRoundTrip | keychain/src/components/Header.tsx:102 | `BigNumber.from` reading a number's base-10 `toString` gives the number back. |
| Header.OrEmpty | keychain/src/components/Header.tsx:81 | the address-or-empty string is empty exactly when the address is missing or empty, and is the address otherwise. |
| Header.ProviderNetwork | keychain/src/components/Header.tsx:91-96 | The network is "mainnet-alpha" exactly for the mainnet chain id and "goerli-alpha" for every other value, including a missing one. |
| Header.ChainIdFromRaw | keychain/src/components/Header.tsx:70 | A run-time chain id string equal to the value of MAINNET, TESTNET or TESTNET2 is that network. Every other string is unrecognised, so unrecognised ids never hold a named network's value. |
| Header.ChainIdRawRoundTrip | keychain/src/components/Header.tsx:70 | Classifying a string and taking its run-time value gives the string back. A well-formed chain id survives the reverse trip. |
| Header.ChainLabel | keychain/src/components/Header.tsx:144-155 | The label is "Unknown" exactly when the chain id is not one of the three named networks. It is "Mainnet" exactly when the query goes to mainnet. TESTNET gives "Testnet" and TESTNET2 gives "Testnet 2". |
| Header.ResolveChainName | keychain/src/components/Header.tsx:144-155 | Starting from "Unknown" and overwriting in the matching case yields `ChainLabel`. |
| Header.ChainLabelIdentifiesNetwork | keychain/src/components/Header.tsx:144-155 | A label other than "Unknown" identifies the chain id. The two test networks share a sequencer network but get different labels. |
| Header.Uint256ToBN | keychain/src/components/Header.tsx:107-111 | For 128-bit halves, the reassembled number is below 2^256, and its low and high 128 bits are the halves. |
| Header.Uint256Covers | keychain/src/components/Header.tsx:107-111 | Every 256-bit value is the reassembly of its own two 128-bit halves. |
| Header.BalanceTextExact | keychain/src/components/Header.tsx:105-113 | The stored balance text denotes exactly `result[0] + result[1] * 2^128` wei in ether. |
| Header.ZeroBalanceIsShown | keychain/src/components/Header.tsx:105-113 | A zero balance is stored as "0.0". That string is truthy, so it is shown rather than taken for loading. |
| Header.BalanceTextTruthy | keychain/src/components/Header.tsx:105-113 | Every stored balance text is non-empty. |
| Header.BalanceEffect | keychain/src/components/Header.tsx:89-103 | Without a truthy address, no query is made. If `BigNumber.from` rejects the address, the effect throws. Otherwise it calls `balanceOf` on the ether contract on `ProviderNetwork(chainId)` with one decimal calldata item that denotes the address's number. |
| Header.RejectionsKeepBalance | keychain/src/components/Header.tsx:98-115 | Rejected calls leave the balance unchanged, because there is no rejection handler. |
| Header.SpinnerUntilFulfilled | keychain/src/components/Header.tsx:98-115 | After a run of settled calls, the balance is truthy exactly when it already was or some call succeeded. |
| Header.LastFulfilledWins | keychain/src/components/Header.tsx:98-117 | The last call to succeed decides the balance, whichever request it answered. |
| Header.BalanceCell.constructor | keychain/src/components/Header.tsx:77 | The balance starts undefined. |
| Header.BalanceCell.OnSettled | keychain/src/components/Header.tsx:104-115 | A success stores the formatted balance, which denotes the answer's wei amount exactly, and the loading indicator goes away. A rejection changes nothing, so the indicator stays as it was. |
| Header.PointsTokenAccountId | keychain/src/components/Header.tsx:79-82 | The id is the Goerli points-chain prefix, then the address-or-empty string, then "/erc20:" and the points contract, and it decomposes back into those parts. It does not depend on `chainId`. |
| Header.PointsTokenAccountIdInjective | keychain/src/components/Header.tsx:79-82 | For a fixed points contract, two ids are equal exactly when the address-or-empty string is equal. |
| Header.AvatarScore | keychain/src/components/Header.tsx:86-87 | The points-or-10 score is never zero. It is 10 exactly when points is missing, 0 or 10, and it is the points balance otherwise. |
| Header.AvatarRequestOf | keychain/src/components/Header.tsx:87 | The avatar hook gets exactly `OrEmpty(address)` and `AvatarScore(points)`. The score is never zero, and the address is empty exactly when there is no truthy address. This holds even when disconnected. |
| Header.Render | keychain/src/components/Header.tsx:119-247 | The variant is disconnected exactly when the address is not truthy. The close button is visible exactly when `onClose` is given. The disconnected logo is grey exactly when muted. The connected variant shows a back arrow exactly when `onBack` is given, shows `ChainLabel`, shows the avatar chip exactly when `chainId` is truthy, and shows the spinner exactly when the balance is not truthy. |
| Header.DisconnectedWithoutAddress | keychain/src/components/Header.tsx:119-142 | Without an address, the chain id and the balance state do not affect what is shown. |

## Left out

- Felts are unbounded naturals. The field modulus of the Stark curve is not modelled because no codec or hash rule here depends on it.
- The session (`Session`) and `SignerSignature` codecs are generated code that is not part of this model. They are parameters that lemmas assume lawful.
- Poseidon, `selector!` (starknet-keccak) and the struct hash of `StarknetDomain` are parameters. Their binding properties are proved under an explicit collision-freedom assumption, so there is no cryptographic claim.
- Any bound check the array decoder of the cainome crate makes before reading elements is not modelled. The crate is not part of this model, and the decoder here fails with `OutOfBounds` at the first element that does not fit.
- RawSession.ShortString: the felt values of the three `short_string!` constants are not evaluated to literals. Only their encoding rule and bound are stated.
- `usize` overflow of the running offset in `cairo_deserialize` is not modelled. Offsets are unbounded.
- Network I/O is left out. `SequencerProvider.callContract` and the points `useBalanceQuery` appear only through their outcomes: `CallOutcome` for the former and the optional points balance for the latter.
- Header.BalanceTextExact: `res.result` is assumed to have at least two entries, each already read as a natural. How starknet.js parses its hex strings is not modelled.
- Header.Render: the `parseFloat(ethBalance).toFixed(3)` rounding of the displayed amount is floating point and is not modelled. The view carries the stored text.
- Header.AvatarScore: points is an integer. A NaN or fractional JavaScript number is not modelled.
- `useAvatar` and its `current`/`loading` result, the SVG markup, clipboard copying on click, the `onLogout` prop and layout/styling props are React, browser or hook details outside this model.
- The race between overlapping balance calls is described as an ordered sequence of settlements. Scheduling and concurrency themselves are not modelled.
- `SignupHeader` is presentational markup with no logic.
- The keychain's `Policies.tsx` is not part of this model.
