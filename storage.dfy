/**
 * Session set-up for the Filecoin storage bridge (src/storage.ts): choosing a
 * broker, the storage half of the session (`initStorage`) and the guards and
 * defaults of the deposit half (`initDeposit`). The bridge contract is given
 * as data: its broker listing is a sequence and its `hasDeposit` view a
 * predicate; the other contract calls are modelled by the arguments they are
 * made with.
 */
module Storage {
  import opened Wrappers
  import opened JsObject
  import opened Json
  import Jws

  const CONTRACT_ID: string := "filecoin-bridge.testnet"
  /** 0.25 NEAR in yoctoNEAR, attached to every deposit. */
  const DEPOSIT: string := "250000000000000000000000"
  /** 300 TGas. */
  const GAS: string := "300000000000000"
  const REMOTE_URL: string := "https://broker.staging.textile.dev"

  datatype BrokerInfo = BrokerInfo(brokerId: string, addresses: seq<string>)

  /** What the session reads from a NEAR account: its id and its connection's network. */
  datatype Account = Account(accountId: string, networkId: string)

  // ---- initStorage ----------------------------------------------------------

  datatype StorageApi = StorageApi(url: string, broker: BrokerInfo, accountId: string, networkId: string)

  /** `brokerInfo.addresses[0] ?? REMOTE_URL`: an empty first address is kept, a missing one is not. */
  function BrokerUrl(b: BrokerInfo): (url: string)
    ensures |b.addresses| > 0 ==> url == b.addresses[0]
    ensures |b.addresses| == 0 ==> url == REMOTE_URL
  {
    if |b.addresses| > 0 then b.addresses[0] else REMOTE_URL
  }

  function InitStorage(account: Account, brokerInfo: Option<BrokerInfo>): (r: Result<StorageApi, string>)
    ensures brokerInfo.None? <==> r == Failure("Must provide broker information")
    ensures brokerInfo.Some? ==>
      r == Success(StorageApi(BrokerUrl(brokerInfo.value), brokerInfo.value, account.accountId, account.networkId))
  {
    match brokerInfo
    case None => Failure("Must provide broker information")
    case Some(b) => Success(StorageApi(BrokerUrl(b), b, account.accountId, account.networkId))
  }

  /** The options `store` and `status` pass to the token issuer. */
  function AuthOptions(s: StorageApi): (opts: seq<Property>)
    ensures Distinct(opts)
  {
    var opts := [Property("accountId", Str(s.accountId)), Property("networkId", Str(s.networkId)),
                 Property("aud", Str(s.broker.brokerId))];
    DistinctKeys(opts);
    assert Keys(opts) == ["accountId", "networkId", "aud"];
    assert Unique(["accountId", "networkId", "aud"]);
    opts
  }

  /** The values of the issuer options. */
  lemma AuthOptionsGet(s: StorageApi)
    ensures Get(AuthOptions(s), "accountId") == Str(s.accountId)
    ensures Get(AuthOptions(s), "networkId") == Str(s.networkId)
    ensures Get(AuthOptions(s), "aud") == Str(s.broker.brokerId)
  {
    var opts := AuthOptions(s);
    assert Get(opts, "accountId") == Str(s.accountId) by {
      Jws.GetThree(opts[0], opts[1], opts[2], "accountId");
    }
    assert Get(opts, "networkId") == Str(s.networkId) by {
      Jws.GetThree(opts[0], opts[1], opts[2], "networkId");
    }
    Jws.GetThree(opts[0], opts[1], opts[2], "aud");
  }

  /** The names of the issuer options. */
  lemma AuthOptionsKeys(s: StorageApi)
    ensures "aud" in KeySet(AuthOptions(s))
    ensures "iss" !in KeySet(AuthOptions(s)) && "sub" !in KeySet(AuthOptions(s))
  {
    var opts := AuthOptions(s);
    DistinctKeys(opts);
    assert Keys(opts) == ["accountId", "networkId", "aud"];
  }

  /**
   * The bearer token of a storage request is issued for the session's identity
   * and addressed to its broker: `iss` is the account, `aud` the broker id, and
   * the identity itself is not a claim.
   */
  lemma AuthClaims(s: StorageApi, sub: string, now: int)
    ensures Jws.AccountId(AuthOptions(s)) == Str(s.accountId)
    ensures Jws.NetworkId(AuthOptions(s)) == Str(s.networkId)
    ensures ToJson(Obj(Jws.Payload(AuthOptions(s), sub, now))).Some?
    ensures var j := ToJson(Obj(Jws.Payload(AuthOptions(s), sub, now))).value;
      && Prop(j, "aud") == Some(JStr(s.broker.brokerId))
      && Prop(j, "iss") == Some(JStr(s.accountId))
      && Prop(j, "accountId").None? && Prop(j, "networkId").None?
  {
    AuthOptionsGet(s);
    AuthOptionsKeys(s);
    IssuedClaims(AuthOptions(s), sub, now, s.accountId, s.broker.brokerId);
  }

  lemma IssuedClaims(opts: seq<Property>, sub: string, now: int, accountId: string, aud: string)
    requires Distinct(opts) && "aud" in KeySet(opts) && "iss" !in KeySet(opts) && "sub" !in KeySet(opts)
    requires Jws.AccountId(opts) == Str(accountId) && Get(opts, "aud") == Str(aud)
    ensures ToJson(Obj(Jws.Payload(opts, sub, now))).Some?
    ensures var j := ToJson(Obj(Jws.Payload(opts, sub, now))).value;
      && Prop(j, "aud") == Some(JStr(aud))
      && Prop(j, "iss") == Some(JStr(accountId))
      && Prop(j, "accountId").None? && Prop(j, "networkId").None?
  {
    Jws.OverrideClaim(opts, sub, now, "aud");
    Jws.DefaultIdentityClaims(opts, sub, now);
    Jws.NoIdentityClaims(opts, sub, now);
  }

  /**
   * The `Authorization` header value of `store` and `status`: `Bearer ` and the
   * token issued for the session, or the issuer's error when it gives none.
   */
  function Authorization(signer: Jws.Signer, s: StorageApi, ms: int, pad: bool): (r: Result<string, Jws.JwsError>)
    ensures signer.getPublicKey(Str(s.accountId), Str(s.networkId)).None? ==> r == Failure(Jws.IdentityError)
    ensures r.Success? <==> Jws.Token(signer, AuthOptions(s), ms, pad).Success?
    ensures r.Success? ==> r.value == "Bearer " + Jws.Token(signer, AuthOptions(s), ms, pad).value
    ensures r.Failure? ==> r == Jws.Token(signer, AuthOptions(s), ms, pad)
  {
    AuthOptionsGet(s);
    match Jws.Token(signer, AuthOptions(s), ms, pad)
    case Failure(e) => Failure(e)
    case Success(token) => Success("Bearer " + token)
  }

  // ---- initDeposit ----------------------------------------------------------

  datatype DepositApi = DepositApi(accountId: string, brokerId: string)

  /** The arguments of a contract call, with the gas and the attached amount when given. */
  datatype AddDepositCall = AddDepositCall(brokerId: string, accountId: string, gas: string, amount: string)
  datatype HasDepositCall = HasDepositCall(brokerId: string, accountId: string)

  function InvalidAccount(id: string): string
  {
    "invalid account id: \"" + id + "\""
  }

  /** `getBroker(id)` looks up `id ?? brokerId`. */
  function GetBroker(d: DepositApi, id: Option<string>): (brokerId: string)
    ensures id.Some? ==> brokerId == id.value
    ensures id.None? ==> brokerId == d.brokerId
  {
    match id
    case Some(i) => i
    case None => d.brokerId
  }

  /**
   * `addDeposit(id = accountId)`: an empty id, given or defaulted, is rejected;
   * otherwise the deposit is made for that id with the session's broker.
   */
  function AddDeposit(d: DepositApi, id: Option<string>): (r: Result<AddDepositCall, string>)
    ensures var who := if id.Some? then id.value else d.accountId;
      && (r.Failure? <==> who == "")
      && (r.Failure? ==> r.error == InvalidAccount(""))
      && (r.Success? ==> r.value == AddDepositCall(d.brokerId, who, GAS, DEPOSIT))
  {
    var who := match id case Some(i) => i case None => d.accountId;
    if who == "" then Failure(InvalidAccount(who))
    else Success(AddDepositCall(d.brokerId, who, GAS, DEPOSIT))
  }

  /** `hasDeposit()`: rejected when the session has no account id. */
  function HasDeposit(d: DepositApi): (r: Result<HasDepositCall, string>)
    ensures r.Failure? <==> d.accountId == ""
    ensures r.Failure? ==> r.error == InvalidAccount("")
    ensures r.Success? ==> r.value == HasDepositCall(d.brokerId, d.accountId)
  {
    if d.accountId == "" then Failure(InvalidAccount(d.accountId))
    else Success(HasDepositCall(d.brokerId, d.accountId))
  }

  // ---- init -----------------------------------------------------------------

  datatype Api = Api(contractId: string, broker: BrokerInfo, deposit: DepositApi, storage: StorageApi)

  /** `contractId || CONTRACT_ID`: a missing or empty id falls back to the default. */
  function ContractId(contractId: Option<string>): (id: string)
    ensures contractId.Some? && contractId.value != "" ==> id == contractId.value
    ensures contractId.None? || contractId.value == "" ==> id == CONTRACT_ID
  {
    if contractId.Some? && contractId.value != "" then contractId.value else CONTRACT_ID
  }

  /** The index of the last broker holding a deposit of `accountId`. */
  function LastDeposit(brokers: seq<BrokerInfo>, accountId: string, hasDeposit: (string, string) -> bool): (r: Option<nat>)
    ensures r.Some? ==> r.value < |brokers| && hasDeposit(brokers[r.value].brokerId, accountId)
    ensures r.Some? ==> forall j :: r.value < j < |brokers| ==> !hasDeposit(brokers[j].brokerId, accountId)
    ensures r.None? ==> forall j :: 0 <= j < |brokers| ==> !hasDeposit(brokers[j].brokerId, accountId)
  {
    if brokers == [] then None
    else if hasDeposit(brokers[|brokers| - 1].brokerId, accountId) then Some(|brokers| - 1)
    else LastDeposit(brokers[..|brokers| - 1], accountId, hasDeposit)
  }

  /**
   * The broker `init` settles on when none is given: the last one holding a
   * deposit of the account, and the last one listed when there is no such
   * broker or no account id.
   */
  function SelectBroker(brokers: seq<BrokerInfo>, accountId: string, hasDeposit: (string, string) -> bool): (b: BrokerInfo)
    requires brokers != []
    ensures b in brokers
    ensures accountId == "" ==> b == brokers[|brokers| - 1]
    ensures (forall j :: 0 <= j < |brokers| ==> !hasDeposit(brokers[j].brokerId, accountId)) ==> b == brokers[|brokers| - 1]
    ensures accountId != "" && (exists j :: 0 <= j < |brokers| && hasDeposit(brokers[j].brokerId, accountId)) ==>
      exists i :: 0 <= i < |brokers| && brokers[i] == b && hasDeposit(b.brokerId, accountId) &&
        forall j :: i < j < |brokers| ==> !hasDeposit(brokers[j].brokerId, accountId)
  {
    if accountId == "" then brokers[|brokers| - 1]
    else
      match LastDeposit(brokers, accountId, hasDeposit)
      case None => brokers[|brokers| - 1]
      case Some(i) => brokers[i]
  }

  /** Against the comment in the loop, a later broker with a deposit wins over an earlier one. */
  lemma LaterDepositWins(first: BrokerInfo, second: BrokerInfo, accountId: string)
    requires accountId != ""
    ensures SelectBroker([first, second], accountId, (_, _) => true) == second
  {
    assert [first, second][..1] == [first];
  }

  /** The session `init` returns once a broker is fixed. */
  function Assemble(account: Account, contractId: Option<string>, b: BrokerInfo): (api: Api)
    ensures api.broker == b && api.contractId == ContractId(contractId)
    ensures api.deposit == DepositApi(account.accountId, b.brokerId)
    ensures InitStorage(account, Some(b)) == Success(api.storage)
    ensures api.storage.url == BrokerUrl(b) && api.storage.broker.brokerId == api.deposit.brokerId
  {
    Api(ContractId(contractId), b, DepositApi(account.accountId, b.brokerId), InitStorage(account, Some(b)).value)
  }

  /**
   * `init`: take the given broker, or list the brokers and walk them, keeping
   * the latest one where the account has a deposit.
   */
  method Init(account: Account, brokerInfo: Option<BrokerInfo>, contractId: Option<string>,
              brokers: seq<BrokerInfo>, hasDeposit: (string, string) -> bool) returns (r: Result<Api, string>)
    ensures brokerInfo.Some? ==> r == Success(Assemble(account, contractId, brokerInfo.value))
    ensures brokerInfo.None? && brokers == [] ==> r == Failure("no registered brokers")
    ensures brokerInfo.None? && brokers != [] ==>
      r == Success(Assemble(account, contractId, SelectBroker(brokers, account.accountId, hasDeposit)))
  {
    var accountId := account.accountId;
    var chosen := brokerInfo;
    if chosen.None? {
      if |brokers| < 1 {
        return Failure("no registered brokers");
      }
      var i := 0;
      while i < |brokers|
        invariant 0 <= i <= |brokers|
        invariant accountId == "" ==> i == 0 && chosen.None?
        invariant accountId != "" ==> chosen == Found(brokers[..i], accountId, hasDeposit)
      {
        if accountId == "" {
          break;
        }
        if hasDeposit(brokers[i].brokerId, accountId) {
          chosen := Some(brokers[i]);
        }
        assert brokers[..i + 1][..i] == brokers[..i];
        i := i + 1;
      }
      if accountId != "" {
        assert brokers[..i] == brokers;
      }
      if chosen.None? {
        chosen := Some(brokers[|brokers| - 1]);
      }
    }
    r := Success(Assemble(account, contractId, chosen.value));
  }

  /** The broker found among `prefix`, the brokers the loop has visited. */
  function Found(prefix: seq<BrokerInfo>, accountId: string, hasDeposit: (string, string) -> bool): Option<BrokerInfo>
  {
    match LastDeposit(prefix, accountId, hasDeposit)
    case None => None
    case Some(i) => Some(prefix[i])
  }
}
