/** The decisions the keychain's `Header` component makes: which variant to
    show, how the chain is labelled, which network the balance is read from,
    how the `balanceOf` answer becomes the displayed ether amount, the
    points-token account id, and the score handed to the avatar. The one piece
    of component state, the ether balance, is held by `BalanceCell`. */
module Header {
  import opened Decimal

  /** `constants.StarknetChainId`: the three networks the header knows, and
      any other value it may be handed at run time. A run-time value equal to
      a named network's string is that network, so `Unrecognized` only holds
      other strings (`WellFormedChainId`); `ChainIdFromRaw` builds values that
      way. */
  datatype ChainId = Mainnet | Testnet | Testnet2 | Unrecognized(raw: string)

  /** The string values of the named networks: "SN_MAIN", "SN_GOERLI" and
      "SN_GOERLI2" as hexadecimal short strings. */
  const MAINNET_ID: string := "0x534e5f4d41494e"
  const TESTNET_ID: string := "0x534e5f474f45524c49"
  const TESTNET2_ID: string := "0x534e5f474f45524c4932"

  predicate WellFormedChainId(c: ChainId) {
    c.Unrecognized? ==> c.raw != MAINNET_ID && c.raw != TESTNET_ID && c.raw != TESTNET2_ID
  }

  /** The string a chain id is at run time. */
  function ChainIdRaw(c: ChainId): string {
    match c
    case Mainnet => MAINNET_ID
    case Testnet => TESTNET_ID
    case Testnet2 => TESTNET2_ID
    case Unrecognized(raw) => raw
  }

  /** The chain id a run-time string stands for. */
  function ChainIdFromRaw(raw: string): (c: ChainId)
    ensures WellFormedChainId(c)
    ensures c.Unrecognized? <==> raw != MAINNET_ID && raw != TESTNET_ID && raw != TESTNET2_ID
  {
    if raw == MAINNET_ID then Mainnet
    else if raw == TESTNET_ID then Testnet
    else if raw == TESTNET2_ID then Testnet2
    else Unrecognized(raw)
  }

  /** Classifying a string and turning it back gives the string; the
      well-formed chain ids are exactly the classified strings. */
  lemma ChainIdRawRoundTrip(raw: string, c: ChainId)
    ensures ChainIdRaw(ChainIdFromRaw(raw)) == raw
    ensures WellFormedChainId(c) ==> ChainIdFromRaw(ChainIdRaw(c)) == c
  {
    assert |MAINNET_ID| == 16 && |TESTNET_ID| == 20 && |TESTNET2_ID| == 22;
  }

  /** JavaScript truthiness of an optional string: defined and non-empty. */
  predicate Truthy(s: Option<string>) {
    s.Some? && s.value != ""
  }

  /** JavaScript truthiness of the optional chain id: defined, and not the
      empty string. */
  predicate ChainIdTruthy(chainId: Option<ChainId>) {
    chainId.Some? && ChainIdRaw(chainId.value) != ""
  }

  /** `address || ""` */
  function OrEmpty(address: Option<string>): (s: string)
    ensures s == "" <==> !Truthy(address)
    ensures Truthy(address) ==> s == address.value
  {
    if Truthy(address) then address.value else ""
  }

  // ---------------------------------------------------------------------------
  // Network and label.

  /** The sequencer network the balance is read from. */
  function ProviderNetwork(chainId: Option<ChainId>): (network: string)
    ensures network == "mainnet-alpha" <==> chainId == Some(Mainnet)
    ensures network == "mainnet-alpha" || network == "goerli-alpha"
  {
    if chainId == Some(Mainnet) then "mainnet-alpha" else "goerli-alpha"
  }

  /** The label shown on the chain chip. */
  function ChainLabel(chainId: Option<ChainId>): (name: string)
    ensures name == "Unknown" <==>
      !(chainId == Some(Mainnet) || chainId == Some(Testnet) || chainId == Some(Testnet2))
    ensures name == "Mainnet" <==> ProviderNetwork(chainId) == "mainnet-alpha"
    ensures chainId == Some(Testnet) ==> name == "Testnet"
    ensures chainId == Some(Testnet2) ==> name == "Testnet 2"
    ensures name in {"Mainnet", "Testnet", "Testnet 2", "Unknown"}
  {
    match chainId
    case Some(Mainnet) => "Mainnet"
    case Some(Testnet) => "Testnet"
    case Some(Testnet2) => "Testnet 2"
    case _ => "Unknown"
  }

  /** `chainName`: starts as "Unknown" and is overwritten by the matching case. */
  method ResolveChainName(chainId: Option<ChainId>) returns (chainName: string)
    ensures chainName == ChainLabel(chainId)
  {
    chainName := "Unknown";
    match chainId {
      case Some(Mainnet) => chainName := "Mainnet";
      case Some(Testnet) => chainName := "Testnet";
      case Some(Testnet2) => chainName := "Testnet 2";
      case _ =>
    }
  }

  /** A label other than "Unknown" names exactly one network; the two test
      networks share a sequencer network but not a label. */
  lemma ChainLabelIdentifiesNetwork(a: Option<ChainId>, b: Option<ChainId>)
    ensures ChainLabel(a) == ChainLabel(b) && ChainLabel(a) != "Unknown" ==> a == b
    ensures ProviderNetwork(Some(Testnet)) == ProviderNetwork(Some(Testnet2))
    ensures ChainLabel(Some(Testnet)) != ChainLabel(Some(Testnet2))
  {
  }

  // ---------------------------------------------------------------------------
  // The balance query and its answer.

  const TWO_128: nat := 0x1_0000_0000_0000_0000_0000_0000_0000_0000

  /** `uint256ToBN`: the high half shifted left by 128 bits, plus the low half. */
  function Uint256ToBN(low: nat, high: nat): (v: nat)
    ensures low < TWO_128 && high < TWO_128 ==>
      v < TWO_128 * TWO_128 && v % TWO_128 == low && v / TWO_128 == high
  {
    high * TWO_128 + low
  }

  /** Every 256-bit value is the reassembly of exactly one pair of 128-bit
      halves. */
  lemma Uint256Covers(v: nat)
    requires v < TWO_128 * TWO_128
    ensures v % TWO_128 < TWO_128 && v / TWO_128 < TWO_128
    ensures Uint256ToBN(v % TWO_128, v / TWO_128) == v
  {
  }

  /** The text the success callback stores: the low/high pair at indices 0 and
      1 rebuilt as one number, printed in base 10, and formatted as ether. */
  function BalanceText(result: seq<nat>): string
    requires |result| >= 2
  {
    FormatEther(Value(ToDecimal(Uint256ToBN(result[0], result[1]))))
  }

  /** The stored text denotes exactly `result[0] + result[1] * 2^128` wei: no
      precision is lost anywhere in the 256-bit range. */
  lemma BalanceTextExact(result: seq<nat>)
    requires |result| >= 2
    ensures ParseEther(BalanceText(result)) == Some(result[0] + result[1] * TWO_128)
  {
    FormatEtherExact(Uint256ToBN(result[0], result[1]));
  }

  /** A zero balance is stored as "0.0", a non-empty string, so it is shown
      rather than taken for "still loading". */
  lemma ZeroBalanceIsShown()
    ensures BalanceText([0, 0]) == "0.0"
    ensures Truthy(Some(BalanceText([0, 0])))
  {
    FormatEtherWhole(0);
  }

  /** Every stored balance text is non-empty, hence truthy. */
  lemma BalanceTextTruthy(result: seq<nat>)
    requires |result| >= 2
    ensures Truthy(Some(BalanceText(result)))
  {
    assert BalanceText(result)[|ToDecimal(Uint256ToBN(result[0], result[1]) / WEI_PER_ETHER)|] == '.';
  }

  datatype CallRequest = CallRequest(
    network: string,
    contractAddress: string,
    entrypoint: string,
    calldata: seq<string>)

  /** What the effect does for one `(address, chainId)`: nothing, issue the
      `balanceOf` call, or throw because `BigNumber.from` rejects the address. */
  datatype Effect = NoQuery | Query(request: CallRequest) | Throws

  /** A base-10 numeral with an optional minus sign. */
  predicate IsDecimalNumeral(s: string) {
    |s| >= 1 && ((AllDigits(s)) || (s[0] == '-' && |s| >= 2 && AllDigits(s[1..])))
  }

  /** The effect run when `address` or `chainId` changes. */
  function BalanceEffect(address: Option<string>, chainId: Option<ChainId>, ethContract: string): (e: Effect)
    ensures e.NoQuery? <==> !Truthy(address)
    ensures e.Throws? <==> Truthy(address) && ParseBigNumber(address.value).None?
    ensures e.Query? ==>
      && e.request.network == ProviderNetwork(chainId)
      && e.request.contractAddress == ethContract
      && e.request.entrypoint == "balanceOf"
      && |e.request.calldata| == 1
      && IsDecimalNumeral(e.request.calldata[0])
      && ParseBigNumber(e.request.calldata[0]) == ParseBigNumber(address.value)
  {
    if !Truthy(address) then NoQuery
    else
      match ParseBigNumber(address.value)
      case None => Throws
      case Some(v) =>
        DecimalRoundTrip(v);
        var digits := IntToDecimal(v);
        assert v < 0 ==> digits[1..] == ToDecimal(-v);
        Query(CallRequest(ProviderNetwork(chainId), ethContract, "balanceOf", [digits]))
  }

  // ---------------------------------------------------------------------------
  // The ether balance state: undefined until a call succeeds. There is no
  // rejection handler, and nothing resets the state when the address or the
  // chain changes.

  /** How one `callContract` promise settled. */
  datatype CallOutcome = Fulfilled(result: seq<nat>) | Rejected

  predicate WellShaped(o: CallOutcome) {
    o.Fulfilled? ==> |o.result| >= 2
  }

  /** The balance after one promise settles. */
  function Settle(ethBalance: Option<string>, o: CallOutcome): Option<string>
    requires WellShaped(o)
  {
    match o
    case Fulfilled(result) => Some(BalanceText(result))
    case Rejected => ethBalance
  }

  /** The balance after promises settle in the order given. */
  function SettleAll(ethBalance: Option<string>, outcomes: seq<CallOutcome>): Option<string>
    requires forall i :: 0 <= i < |outcomes| ==> WellShaped(outcomes[i])
    decreases |outcomes|
  {
    if outcomes == [] then ethBalance else SettleAll(Settle(ethBalance, outcomes[0]), outcomes[1..])
  }

  /** Rejections leave the balance as it was. */
  lemma {:induction false} RejectionsKeepBalance(ethBalance: Option<string>, outcomes: seq<CallOutcome>)
    requires forall i :: 0 <= i < |outcomes| ==> outcomes[i] == Rejected
    ensures SettleAll(ethBalance, outcomes) == ethBalance
    decreases |outcomes|
  {
    if outcomes != [] {
      RejectionsKeepBalance(ethBalance, outcomes[1..]);
    }
  }

  /** The loading indicator goes away exactly when some call has succeeded
      (or a balance was already shown): failures keep it up for good. */
  lemma {:induction false} SpinnerUntilFulfilled(ethBalance: Option<string>, outcomes: seq<CallOutcome>)
    requires forall i :: 0 <= i < |outcomes| ==> WellShaped(outcomes[i])
    ensures Truthy(SettleAll(ethBalance, outcomes)) <==>
      Truthy(ethBalance) || exists i :: 0 <= i < |outcomes| && outcomes[i].Fulfilled?
    decreases |outcomes|
  {
    if outcomes != [] {
      var o := outcomes[0];
      if o.Fulfilled? {
        BalanceTextTruthy(o.result);
      }
      SpinnerUntilFulfilled(Settle(ethBalance, o), outcomes[1..]);
      if exists i :: 0 <= i < |outcomes| && outcomes[i].Fulfilled? {
        var i :| 0 <= i < |outcomes| && outcomes[i].Fulfilled?;
        if i > 0 {
          assert outcomes[1..][i - 1].Fulfilled?;
        }
      }
    }
  }

  /** The last call to succeed decides the balance, whichever address or chain
      it was issued for: nothing tags a response with its request. */
  lemma {:induction false} LastFulfilledWins(ethBalance: Option<string>, outcomes: seq<CallOutcome>, k: nat)
    requires forall i :: 0 <= i < |outcomes| ==> WellShaped(outcomes[i])
    requires k < |outcomes| && outcomes[k].Fulfilled?
    requires forall j :: k < j < |outcomes| ==> outcomes[j] == Rejected
    ensures SettleAll(ethBalance, outcomes) == Some(BalanceText(outcomes[k].result))
    decreases k
  {
    var rest := outcomes[1..];
    var next := Settle(ethBalance, outcomes[0]);
    assert SettleAll(ethBalance, outcomes) == SettleAll(next, rest);
    if k == 0 {
      assert forall j :: 0 <= j < |rest| ==> rest[j] == outcomes[j + 1];
      RejectionsKeepBalance(next, rest);
    } else {
      assert rest[k - 1] == outcomes[k];
      assert forall j :: k - 1 < j < |rest| ==> rest[j] == outcomes[j + 1];
      LastFulfilledWins(next, rest, k - 1);
    }
  }

  /** The `ethBalance` state of one mounted header. */
  class BalanceCell {
    var ethBalance: Option<string>

    /** `useState<string>()`: undefined. */
    constructor ()
      ensures ethBalance == None
    {
      ethBalance := None;
    }

    /** One `callContract` promise settles: success stores the formatted
        balance, rejection has no handler and changes nothing. */
    method OnSettled(o: CallOutcome)
      requires WellShaped(o)
      modifies this
      ensures ethBalance == Settle(old(ethBalance), o)
      ensures o.Fulfilled? ==> ParseEther(ethBalance.value) == Some(o.result[0] + o.result[1] * TWO_128)
      ensures o.Fulfilled? ==> !ShowsSpinner()
      ensures o.Rejected? ==> ShowsSpinner() == old(ShowsSpinner())
    {
      match o {
        case Fulfilled(result) =>
          ethBalance := Some(BalanceText(result));
          BalanceTextExact(result);
          BalanceTextTruthy(result);
        case Rejected =>
      }
    }

    /** The loading indicator is shown while `!ethBalance`. */
    predicate ShowsSpinner()
      reads this
    {
      !Truthy(ethBalance)
    }
  }

  // ---------------------------------------------------------------------------
  // Points and avatar.

  const POINTS_CHAIN: string := "starknet:SN_GOERLI"

  const POINTS_PREFIX: string := POINTS_CHAIN + "/" + POINTS_CHAIN + ":"

  /** `pointsTokenAccountId`: always on the Goerli points chain, whatever
      `chainId` is. */
  function PointsTokenAccountId(address: Option<string>, pointsContract: string): (id: string)
    ensures var suffix := "/erc20:" + pointsContract;
      && |id| == |POINTS_PREFIX| + |OrEmpty(address)| + |suffix|
      && id[..|POINTS_PREFIX|] == POINTS_PREFIX
      && id[|POINTS_PREFIX|..|id| - |suffix|] == OrEmpty(address)
      && id[|id| - |suffix|..] == suffix
  {
    var id := POINTS_PREFIX + OrEmpty(address) + "/erc20:" + pointsContract;
    assert id == POINTS_PREFIX + OrEmpty(address) + ("/erc20:" + pointsContract);
    id
  }

  /** Different addresses give different points account ids; a missing and an
      empty address give the same one. */
  lemma PointsTokenAccountIdInjective(a: Option<string>, b: Option<string>, pointsContract: string)
    ensures PointsTokenAccountId(a, pointsContract) == PointsTokenAccountId(b, pointsContract)
        <==> OrEmpty(a) == OrEmpty(b)
  {
    var ia, ib := PointsTokenAccountId(a, pointsContract), PointsTokenAccountId(b, pointsContract);
    if ia == ib {
      var n := |"/erc20:" + pointsContract|;
      assert ia[|POINTS_PREFIX|..|ia| - n] == ib[|POINTS_PREFIX|..|ib| - n];
    }
  }

  /** `points || 10`: the points balance when truthy, otherwise 10. */
  function AvatarScore(points: Option<int>): (score: int)
    ensures score != 0
    ensures score == 10 <==> (points.None? || points.value == 0 || points.value == 10)
    ensures points.Some? && points.value != 0 ==> score == points.value
  {
    if points.Some? && points.value != 0 then points.value else 10
  }

  /** What the avatar hook is given. */
  datatype AvatarRequest = AvatarRequest(address: string, score: int)

  function AvatarRequestOf(address: Option<string>, points: Option<int>): (r: AvatarRequest)
    ensures r.address == OrEmpty(address) && r.score == AvatarScore(points)
    ensures r.score != 0
    ensures r.address == "" <==> !Truthy(address)
  {
    AvatarRequest(OrEmpty(address), AvatarScore(points))
  }

  // ---------------------------------------------------------------------------
  // The rendered variant.

  datatype HeaderProps = HeaderProps(
    chainId: Option<ChainId>,
    address: Option<string>,
    muted: bool,
    hasOnClose: bool,
    hasOnBack: bool)

  datatype BalanceDisplay = Spinner | Amount(text: string)

  datatype HeaderView =
    | Disconnected(logoFill: string, closeVisible: bool)
    | Connected(backArrow: bool, chainLabel: string, balance: BalanceDisplay, avatarChip: bool, closeVisible: bool)

  /** The header for the given props and balance state. */
  function Render(props: HeaderProps, ethBalance: Option<string>): (view: HeaderView)
    ensures view.Disconnected? <==> !Truthy(props.address)
    ensures view.closeVisible == props.hasOnClose
    ensures view.Disconnected? ==> (view.logoFill == "gray.200" <==> props.muted)
    ensures view.Connected? ==>
      && (view.backArrow <==> props.hasOnBack)
      && view.chainLabel == ChainLabel(props.chainId)
      && (view.avatarChip <==> ChainIdTruthy(props.chainId))
      && (view.balance == Spinner <==> !Truthy(ethBalance))
      && (view.balance.Amount? ==> Some(view.balance.text) == ethBalance)
  {
    if !Truthy(props.address) then
      Disconnected(if props.muted then "gray.200" else "brand", props.hasOnClose)
    else
      Connected(
        props.hasOnBack,
        ChainLabel(props.chainId),
        if Truthy(ethBalance) then Amount(ethBalance.value) else Spinner,
        ChainIdTruthy(props.chainId),
        props.hasOnClose)
  }

  /** Without an address the disconnected variant is shown, whatever the chain. */
  lemma DisconnectedWithoutAddress(p1: HeaderProps, p2: HeaderProps,
                                   ethBalance1: Option<string>, ethBalance2: Option<string>)
    requires !Truthy(p1.address) && !Truthy(p2.address)
    requires p1.muted == p2.muted && p1.hasOnClose == p2.hasOnClose
    ensures Render(p1, ethBalance1) == Render(p2, ethBalance2)
  {
  }
}
