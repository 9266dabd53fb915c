/**
 * Record shapes, composite keys and defaults of the governance contract
 * (include/daclifycore.hpp) and the authority shapes of the system contract
 * (include/system_structs.hpp), plus the error, effect and environment values
 * the rest of the model shares.
 */
module Types {

  // ---------------------------------------------------------------------
  // Machine integers
  // ---------------------------------------------------------------------

  type Uint8 = x: int | 0 <= x < 0x100
  type Int8 = x: int | -0x80 <= x < 0x80
  type Uint16 = x: int | 0 <= x < 0x1_0000
  type Uint32 = x: int | 0 <= x < 0x1_0000_0000
  type Int64 = x: int | -0x8000_0000_0000_0000 <= x < 0x8000_0000_0000_0000
  type Uint64 = x: int | 0 <= x < 0x1_0000_0000_0000_0000
  type Uint128 = x: int | 0 <= x < 0x1_0000_0000_0000_0000_0000_0000_0000_0000

  const TWO_TO_THE_64: int := 0x1_0000_0000_0000_0000

  /** Reading a stored int8 through a uint8 (threshold_name_and_value, get_threshold_by_name):
      the same eight bits, so -1 reads as 255. */
  function Uint8Of(v: Int8): (r: Uint8)
    ensures (r - v) % 0x100 == 0
  {
    if v < 0 then v + 0x100 else v
  }

  /** Passing a uint8 where an int8 parameter is expected: the same eight bits, so 128..255
      arrive as -128..-1. */
  function Int8Of(v: Uint8): (r: Int8)
    ensures (r - v) % 0x100 == 0
  {
    if v < 0x80 then v else v - 0x100
  }

  lemma Int8Uint8Inverse(v: Int8, u: Uint8)
    ensures Int8Of(Uint8Of(v)) == v
    ensures Uint8Of(Int8Of(u)) == u
  {
  }

  // ---------------------------------------------------------------------
  // Names, time, bytes
  // ---------------------------------------------------------------------

  /** An account, permission, action or table-scope name, by its 64-bit encoding (name.value). */
  type Name = Uint64
  /** time_point_sec: seconds since the epoch in 32 bits. */
  type TimeSec = Uint32
  type Byte = Uint8
  type Checksum256 = seq<Byte>
  /** symbol::raw(): precision and code packed in 64 bits. */
  type Symbol = Uint64

  // 64-bit encodings of the literal names the contract uses.
  const DEFAULT: Name := 5374603357560242176      // "default"
  const ACTIVE: Name := 3617214756542218240       // "active"
  const OWNER: Name := 12044502819693133824       // "owner"
  const PROPOSE: Name := 12531646811867185152     // "propose"
  const ELECTIONS: Name := 6076636530200281088    // "elections"
  const CANCELLED: Name := 4730614995002851328    // "cancelled"
  const EXECUTED: Name := 6292810045499375616     // "executed"
  const EOSIO_CODE: Name := 6138663582462279680   // "eosio.code"
  const DACLIFYHUB11: Name := 5301043730475762192 // "daclifyhub11"

  // ---------------------------------------------------------------------
  // Authority shapes (include/system_structs.hpp)
  // ---------------------------------------------------------------------

  datatype PermissionLevel = PermissionLevel(actor: Name, permission: Name)
  datatype KeyWeight = KeyWeight(key: seq<Byte>, weight: Uint16)
  datatype PermissionLevelWeight = PermissionLevelWeight(permission: PermissionLevel, weight: Uint16)
  datatype WaitWeight = WaitWeight(waitSec: Uint32, weight: Uint16)
  datatype Authority = Authority(
    threshold: Uint32,
    keys: seq<KeyWeight>,
    accounts: seq<PermissionLevelWeight>,
    waits: seq<WaitWeight>)

  /** sort_authorization_by_name: entries are compared by actor only. */
  predicate ActorLess(a: PermissionLevelWeight, b: PermissionLevelWeight)
  {
    a.permission.actor < b.permission.actor
  }

  /** The order std::sort establishes with sort_authorization_by_name. */
  predicate SortedByActor(s: seq<PermissionLevelWeight>)
  {
    forall i, j :: 0 <= i < j < |s| ==> !ActorLess(s[j], s[i])
  }

  // ---------------------------------------------------------------------
  // Actions and assets
  // ---------------------------------------------------------------------

  /** An eosio::action: target contract, action name, authorisations and packed payload. */
  datatype Action = Action(account: Name, name: Name, authorization: seq<PermissionLevel>, data: seq<Byte>)

  datatype Asset = Asset(amount: Int64, symbol: Symbol)
  datatype ExtendedAsset = ExtendedAsset(quantity: Asset, contract: Name)

  /** asset::max_amount, 2^62 - 1. */
  const MAX_AMOUNT: int := 0x3FFF_FFFF_FFFF_FFFF

  // ---------------------------------------------------------------------
  // Configuration (groupconf)
  // ---------------------------------------------------------------------

  datatype GroupConf = GroupConf(
    maxCustodians: Uint8,
    inactivateCustAfterSec: Uint32,
    execOnThresholdZero: bool,
    proposalArchiveSize: Uint8,
    memberRegistration: bool,
    userterms: bool,
    profileProvider: Name,
    withdrawals: bool,
    internalTransfers: bool,
    deposits: bool,
    maintainerAccount: PermissionLevel,
    hubAccount: Name,
    r1: bool,
    r2: bool,
    r3: Uint64)

  /** The configuration a fresh (or removed) singleton yields: the member initialisers of groupconf. */
  function DefaultGroupConf(): (c: GroupConf)
    ensures c.maxCustodians == 0 && c.inactivateCustAfterSec == 2592000
    ensures !c.execOnThresholdZero && c.proposalArchiveSize == 3
    ensures !c.memberRegistration && !c.userterms && !c.withdrawals && !c.internalTransfers && !c.deposits
  {
    GroupConf(
      0, 60 * 60 * 24 * 30, false, 3, false, false, 0, false, false, false,
      PermissionLevel(DACLIFYHUB11, ACTIVE), DACLIFYHUB11, false, false, 0)
  }

  // ---------------------------------------------------------------------
  // Table rows
  // ---------------------------------------------------------------------

  datatype Custodian = Custodian(account: Name, authority: Name, weight: Uint8, joined: TimeSec, lastActive: TimeSec)

  /** A custodians row built with its member initialisers: authority "active", weight 1,
      joined now, and last_active 0, the "never active" sentinel. */
  function NewCustodian(account: Name, now: TimeSec): (c: Custodian)
    ensures c.account == account && c.authority == ACTIVE && c.weight == 1
    ensures c.joined == now && c.lastActive == 0
  {
    Custodian(account, ACTIVE, 1, now, 0)
  }

  datatype Member = Member(account: Name, memberSince: TimeSec, agreedUsertermsVersion: Uint64, r2: Uint64)

  datatype Proposal = Proposal(
    id: Uint64,
    title: string,
    description: string,
    proposer: Name,
    actions: seq<Action>,
    submitted: TimeSec,
    expiration: TimeSec,
    approvals: seq<Name>,
    requiredThreshold: Name,
    lastActor: Name,
    trxId: Checksum256)

  /** A balances row; a scope holds one row per (contract, symbol). */
  datatype BalanceRow = BalanceRow(id: Uint64, balance: ExtendedAsset)

  datatype ThreshLink = ThreshLink(id: Uint64, contract: Name, actionName: Name, thresholdName: Name)

  datatype ModuleLink = ModuleLink(moduleName: Name, slavePermission: PermissionLevel, parent: Name, hasContract: bool, enabled: bool)

  /** threshold_name_and_value: note the uint8 value. */
  datatype ThresholdNameAndValue = ThresholdNameAndValue(thresholdName: Name, threshold: Uint8)

  // ---------------------------------------------------------------------
  // Composite 128-bit keys
  // ---------------------------------------------------------------------

  /** threshlinks::by_cont_act, (contract << 64) | action. */
  function ContAct(contract: Name, action: Name): (k: Uint128)
    ensures k / TWO_TO_THE_64 == contract && k % TWO_TO_THE_64 == action
  {
    contract * TWO_TO_THE_64 + action
  }

  /** balances::by_contr_sym, (contract << 64) | symbol.raw(). */
  function ContrSym(contract: Name, symbol: Symbol): (k: Uint128)
    ensures k / TWO_TO_THE_64 == contract && k % TWO_TO_THE_64 == symbol
  {
    contract * TWO_TO_THE_64 + symbol
  }

  /** The link key identifies its (contract, action) pair: at most one link row per pair. */
  lemma ContActInjective(c1: Name, a1: Name, c2: Name, a2: Name)
    requires ContAct(c1, a1) == ContAct(c2, a2)
    ensures c1 == c2 && a1 == a2
  {
  }

  /** The balance key identifies its (contract, symbol) pair: at most one balance row per asset type. */
  lemma ContrSymInjective(c1: Name, s1: Symbol, c2: Name, s2: Symbol)
    requires ContrSym(c1, s1) == ContrSym(c2, s2)
    ensures c1 == c2 && s1 == s2
  {
  }

  // ---------------------------------------------------------------------
  // Errors, results and emitted effects
  // ---------------------------------------------------------------------

  /** One value per failing check of the contract (each aborts the whole action). */
  datatype Error =
    | MissingAuth            // require_auth
    | NotCustodian           // "... because you are not a custodian." / "Account is not a custodian."
    | Inactive               // "You've been inactive, please verify you're alive first."
    | BadActionCount         // "Number of actions not allowed."
    | SelfPropose            // "can't propose a proposal on self."
    | ExpirationNotFuture    // "Expiration must be in the future."
    | MinimumExpiration      // "Minimum expiration not met."
    | ProposalNotFound
    | AlreadyApproved
    | NotInApprovals
    | ProposalExpired
    | NotEnoughWeight
    | SelfCustodian
    | ElectionModuleLinked
    | AccountMissing         // is_account is false
    | AlreadyCustodian
    | LastCustodian
    | NoElectionsModule
    | TooManyCustodians
    | EmptyCustodianList
    | DuplicateRow           // multi_index emplace of an existing primary key
    | PrimaryKeyExhausted    // "next primary key in table is at max"
    | ThresholdLinked
    | ThresholdMissing
    | DefaultUndeletable
    | LinkedWasNegative
    | LinkedToNegative
    | DefaultProtected
    | BelowMinusOne
    | InvalidThresholdName
    | DefaultNotPositive
    | UndefinedRead          // dereferencing end() of a table
    | UnresolvableDefault    // get_threshold_by_name("default") with no "default" row recurses forever
    | WildcardContract
    | EmptyThresholdName
    | DefaultUnassignable
    | ThresholdUnknown
    | LinkMissing
    | ScopeForbidden
    | HistoryEmpty
    | BalanceMissing
    | Overdrawn
    | AdditionOverflow       // asset += beyond max_amount
    | AdditionUnderflow      // asset += below -max_amount
    | SubtractionOverflow    // asset -= beyond max_amount
    | TransfersDisabled
    | SenderNotMember
    | ReceiverNotMember
    | NonPositiveAmount
    | WithdrawalsDisabled
    | WithdrawToSelf
    | RegistrationDisabled
    | SelfMember
    | AlreadyMember
    | MemberHasBalance
    | NotMember
    | InvalidTransfer
    | DepositsDisabled
    | MemoNotMember
    | InvalidName            // name(string) rejects the string

  datatype Result<+T> = Ok(value: T) | Err(error: Error)

  datatype Option<+T> = None | Some(value: T)

  /** An inline action the contract sends; they run, in this order, after the action completes. */
  datatype Effect =
    | Send(act: Action)                                          // a proposal action, as stored
    | UpdateAuth(permission: Name, parent: Name, auth: Authority) // eosio::updateauth of the governed account
    | MessageBus(hub: Name, sender: Name, event: Name, proposer: Name)
    | TruncHistory(scope: Name, batchSize: Uint32)               // this contract's trunchistory
    | Transfer(contract: Name, from: Name, to: Name, quantity: Asset, memo: string)

  /** The end of an action: it either completed, having sent the effects in order, or aborted. */
  datatype Outcome = Done(effects: seq<Effect>) | Abort(error: Error)

  /** Sending each action of a list, in order. */
  function Sends(actions: seq<Action>): (r: seq<Effect>)
    ensures |r| == |actions|
    ensures forall i :: 0 <= i < |actions| ==> r[i] == Send(actions[i])
  {
    seq(|actions|, i requires 0 <= i < |actions| => Send(actions[i]))
  }

  /** What the host provides to one action: the clock, the authorising accounts,
      the set of existing accounts (is_account) and the transaction fingerprint. */
  datatype Env = Env(now: TimeSec, auths: set<Name>, accounts: set<Name>, trxId: Checksum256)
}
