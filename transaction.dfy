/**
 * Starknet transactions: the variants of each transaction kind, their version numbers
 * and type tags, the executable form that carries a declared class, and the dispatch
 * of transaction hashing to the hash primitive of each variant.
 */
module Transactions {
  import opened Wrappers
  import State

  /** A Starknet field element. */
  type Felt = nat

  /** The transaction types of the Starknet API. */
  datatype TxType = Invoke | Declare | DeployAccount | L1Handler | Deploy

  datatype DataAvailabilityMode = L1 | L2

  datatype ResourceBounds = ResourceBounds(maxAmount: nat, maxPricePerUnit: nat)

  const ZERO_BOUNDS := ResourceBounds(0, 0)

  /** Either all three resources are bounded, or (in older transactions) only L1 gas. */
  datatype ResourceBoundsMapping =
    | All(l1Gas: ResourceBounds, l2Gas: ResourceBounds, l1DataGas: ResourceBounds)
    | L1GasOnly(bounds: ResourceBounds)

  datatype InvokeTxV0 = InvokeTxV0(
    contractAddress: Felt, entryPointSelector: Felt, calldata: seq<Felt>, signature: seq<Felt>, maxFee: nat)

  datatype InvokeTxV1 = InvokeTxV1(
    chainId: Felt, senderAddress: Felt, nonce: Felt, calldata: seq<Felt>, signature: seq<Felt>, maxFee: nat)

  datatype InvokeTxV3 = InvokeTxV3(
    chainId: Felt, senderAddress: Felt, nonce: Felt, calldata: seq<Felt>, signature: seq<Felt>,
    resourceBounds: ResourceBoundsMapping, tip: nat, paymasterData: seq<Felt>,
    accountDeploymentData: seq<Felt>, nonceDaMode: DataAvailabilityMode, feeDaMode: DataAvailabilityMode)

  datatype InvokeTx = InvokeV0(v0: InvokeTxV0) | InvokeV1(v1: InvokeTxV1) | InvokeV3(v3: InvokeTxV3)

  datatype DeclareTxV0 = DeclareTxV0(
    chainId: Felt, senderAddress: Felt, signature: seq<Felt>, classHash: Felt, maxFee: nat)

  datatype DeclareTxV1 = DeclareTxV1(
    chainId: Felt, senderAddress: Felt, nonce: Felt, signature: seq<Felt>, classHash: Felt, maxFee: nat)

  datatype DeclareTxV2 = DeclareTxV2(
    chainId: Felt, senderAddress: Felt, nonce: Felt, signature: seq<Felt>, classHash: Felt,
    compiledClassHash: Felt, maxFee: nat)

  datatype DeclareTxV3 = DeclareTxV3(
    chainId: Felt, senderAddress: Felt, nonce: Felt, signature: seq<Felt>, classHash: Felt,
    compiledClassHash: Felt, resourceBounds: ResourceBoundsMapping, tip: nat, paymasterData: seq<Felt>,
    accountDeploymentData: seq<Felt>, nonceDaMode: DataAvailabilityMode, feeDaMode: DataAvailabilityMode)

  datatype DeclareTx =
    | DeclareV0(d0: DeclareTxV0)
    | DeclareV1(d1: DeclareTxV1)
    | DeclareV2(d2: DeclareTxV2)
    | DeclareV3(d3: DeclareTxV3)

  datatype L1HandlerTx = L1HandlerTx(
    nonce: Felt, chainId: Felt, paidFeeOnL1: nat, version: Felt, messageHash: seq<nat>,
    calldata: seq<Felt>, contractAddress: Felt, entryPointSelector: Felt)

  datatype DeployAccountTxV1 = DeployAccountTxV1(
    chainId: Felt, nonce: Felt, signature: seq<Felt>, classHash: Felt, contractAddress: Felt,
    contractAddressSalt: Felt, constructorCalldata: seq<Felt>, maxFee: nat)

  datatype DeployAccountTxV3 = DeployAccountTxV3(
    chainId: Felt, nonce: Felt, signature: seq<Felt>, classHash: Felt, contractAddress: Felt,
    contractAddressSalt: Felt, constructorCalldata: seq<Felt>, resourceBounds: ResourceBoundsMapping,
    tip: nat, paymasterData: seq<Felt>, nonceDaMode: DataAvailabilityMode, feeDaMode: DataAvailabilityMode)

  datatype DeployAccountTx = DeployAccountV1(a1: DeployAccountTxV1) | DeployAccountV3(a3: DeployAccountTxV3)

  /** The legacy deploy transaction. */
  datatype DeployTx = DeployTx(
    contractAddress: Felt, contractAddressSalt: Felt, constructorCalldata: seq<Felt>, classHash: Felt, version: Felt)

  /** A transaction as stored. */
  datatype Tx =
    | InvokeTransaction(invoke: InvokeTx)
    | DeclareTransaction(declare: DeclareTx)
    | L1HandlerTransaction(l1Handler: L1HandlerTx)
    | DeployAccountTransaction(deployAccount: DeployAccountTx)
    | DeployTransaction(deploy: DeployTx)

  /** A borrowed view of a transaction of one of the four kinds that can still be executed. */
  datatype TxRef =
    | InvokeRef(invokeRef: InvokeTx)
    | DeclareRef(declareRef: DeclareTx)
    | L1HandlerRef(l1HandlerRef: L1HandlerTx)
    | DeployAccountRef(deployAccountRef: DeployAccountTx)

  /** A declare transaction together with the class it declares. */
  datatype DeclareTxWithClass = DeclareTxWithClass(contractClass: State.ContractClass, transaction: DeclareTx)

  /** A transaction with everything it needs to be executed. */
  datatype ExecutableTx =
    | ExecInvoke(execInvoke: InvokeTx)
    | ExecL1Handler(execL1Handler: L1HandlerTx)
    | ExecDeclare(execDeclare: DeclareTxWithClass)
    | ExecDeployAccount(execDeployAccount: DeployAccountTx)

  datatype ExecutableTxWithHash = ExecutableTxWithHash(hash: Felt, transaction: ExecutableTx)

  datatype TxWithHash = TxWithHash(hash: Felt, transaction: Tx)

  // ----- Versions and types -----

  /** The Starknet API type of the variant of each kind. */
  predicate IsVersioned(tx: Tx) {
    tx.InvokeTransaction? || tx.DeclareTransaction? || tx.DeployAccountTransaction?
  }

  /**
   * `Tx::version`: the version an L1 handler or legacy deploy transaction carries, and
   * otherwise the version number of the variant (0 to 3).
   */
  function Version(tx: Tx): (v: Felt)
    ensures tx.L1HandlerTransaction? ==> v == tx.l1Handler.version
    ensures tx.DeployTransaction? ==> v == tx.deploy.version
    ensures tx.InvokeTransaction? && tx.invoke.InvokeV0? ==> v == 0
    ensures tx.InvokeTransaction? && tx.invoke.InvokeV1? ==> v == 1
    ensures tx.InvokeTransaction? && tx.invoke.InvokeV3? ==> v == 3
    ensures tx.DeclareTransaction? && tx.declare.DeclareV0? ==> v == 0
    ensures tx.DeclareTransaction? && tx.declare.DeclareV1? ==> v == 1
    ensures tx.DeclareTransaction? && tx.declare.DeclareV2? ==> v == 2
    ensures tx.DeclareTransaction? && tx.declare.DeclareV3? ==> v == 3
    ensures tx.DeployAccountTransaction? && tx.deployAccount.DeployAccountV1? ==> v == 1
    ensures tx.DeployAccountTransaction? && tx.deployAccount.DeployAccountV3? ==> v == 3
  {
    match tx
    case InvokeTransaction(i) =>
      (match i
       case InvokeV0(_) => 0
       case InvokeV1(_) => 1
       case InvokeV3(_) => 3)
    case DeclareTransaction(d) =>
      (match d
       case DeclareV0(_) => 0
       case DeclareV1(_) => 1
       case DeclareV2(_) => 2
       case DeclareV3(_) => 3)
    case L1HandlerTransaction(l) => l.version
    case DeployAccountTransaction(a) =>
      (match a
       case DeployAccountV1(_) => 1
       case DeployAccountV3(_) => 3)
    case DeployTransaction(d) => d.version
  }

  /** Which variant of its kind a transaction is, counted from 0. */
  function VariantIndex(tx: Tx): nat {
    match tx
    case InvokeTransaction(i) => if i.InvokeV0? then 0 else if i.InvokeV1? then 1 else 2
    case DeclareTransaction(d) => if d.DeclareV0? then 0 else if d.DeclareV1? then 1 else if d.DeclareV2? then 2 else 3
    case DeployAccountTransaction(a) => if a.DeployAccountV1? then 0 else 1
    case _ => 0
  }

  /**
   * Within one kind, the version number tells the variants apart: two invoke, declare or
   * deploy-account transactions have the same version exactly when they are the same variant.
   */
  lemma VersionIdentifiesVariant(a: Tx, b: Tx)
    requires IsVersioned(a) && Type(a) == Type(b)
    ensures Version(a) == Version(b) <==> VariantIndex(a) == VariantIndex(b)
  {
  }

  /** `Tx::r#type`: the tag of the transaction's kind. */
  function Type(tx: Tx): (t: TxType)
    ensures t == Invoke <==> tx.InvokeTransaction?
    ensures t == Declare <==> tx.DeclareTransaction?
    ensures t == L1Handler <==> tx.L1HandlerTransaction?
    ensures t == DeployAccount <==> tx.DeployAccountTransaction?
    ensures t == Deploy <==> tx.DeployTransaction?
  {
    match tx
    case InvokeTransaction(_) => Invoke
    case DeployTransaction(_) => Deploy
    case DeclareTransaction(_) => Declare
    case L1HandlerTransaction(_) => L1Handler
    case DeployAccountTransaction(_) => DeployAccount
  }

  /** `From<TxRef> for Tx`: an owned copy of the referenced transaction, of the same kind. */
  function TxFromRef(r: TxRef): (tx: Tx)
    ensures r.InvokeRef? <==> tx.InvokeTransaction?
    ensures r.DeclareRef? <==> tx.DeclareTransaction?
    ensures r.L1HandlerRef? <==> tx.L1HandlerTransaction?
    ensures r.DeployAccountRef? <==> tx.DeployAccountTransaction?
    ensures !tx.DeployTransaction?
  {
    match r
    case InvokeRef(i) => InvokeTransaction(i)
    case DeclareRef(d) => DeclareTransaction(d)
    case L1HandlerRef(l) => L1HandlerTransaction(l)
    case DeployAccountRef(a) => DeployAccountTransaction(a)
  }

  /** `ExecutableTx::tx_ref`: a view of the transaction; a declare drops its class. */
  function ExecutableTxRef(e: ExecutableTx): (r: TxRef)
    ensures e.ExecDeclare? ==> r == DeclareRef(e.execDeclare.transaction)
    ensures e.ExecInvoke? ==> r == InvokeRef(e.execInvoke)
    ensures e.ExecL1Handler? ==> r == L1HandlerRef(e.execL1Handler)
    ensures e.ExecDeployAccount? ==> r == DeployAccountRef(e.execDeployAccount)
  {
    match e
    case ExecInvoke(i) => InvokeRef(i)
    case ExecL1Handler(l) => L1HandlerRef(l)
    case ExecDeclare(d) => DeclareRef(d.transaction)
    case ExecDeployAccount(a) => DeployAccountRef(a)
  }

  /** `ExecutableTx::r#type`. */
  function ExecutableType(e: ExecutableTx): (t: TxType)
    ensures t != Deploy
  {
    match e
    case ExecInvoke(_) => Invoke
    case ExecDeclare(_) => Declare
    case ExecL1Handler(_) => L1Handler
    case ExecDeployAccount(_) => DeployAccount
  }

  /** Turning an executable transaction into a stored one keeps its type. */
  lemma RefKeepsType(e: ExecutableTx)
    ensures Type(TxFromRef(ExecutableTxRef(e))) == ExecutableType(e)
  {
  }

  // ----- Hashing -----

  /**
   * The hash primitive of each variant, one argument per value it commits to; the
   * primitives are cryptographic code outside this model.
   */
  datatype Hashers = Hashers(
    invokeV1: (Felt, seq<Felt>, nat, Felt, Felt, bool) -> Felt,
    invokeV3: (Felt, seq<Felt>, nat, ResourceBounds, ResourceBounds, Option<ResourceBounds>, seq<Felt>,
               Felt, Felt, DataAvailabilityMode, DataAvailabilityMode, seq<Felt>, bool) -> Felt,
    declareV0: (Felt, Felt, nat, Felt, bool) -> Felt,
    declareV1: (Felt, Felt, nat, Felt, Felt, bool) -> Felt,
    declareV2: (Felt, Felt, nat, Felt, Felt, Felt, bool) -> Felt,
    declareV3: (Felt, Felt, Felt, nat, ResourceBounds, ResourceBounds, Option<ResourceBounds>, seq<Felt>,
                Felt, Felt, DataAvailabilityMode, DataAvailabilityMode, seq<Felt>, bool) -> Felt,
    l1Handler: (Felt, Felt, Felt, seq<Felt>, Felt, Felt) -> Felt,
    deployAccountV1: (Felt, seq<Felt>, Felt, Felt, nat, Felt, Felt, bool) -> Felt,
    deployAccountV3: (Felt, seq<Felt>, Felt, Felt, nat, ResourceBounds, ResourceBounds, Option<ResourceBounds>,
                      seq<Felt>, Felt, Felt, DataAvailabilityMode, DataAvailabilityMode, bool) -> Felt)

  /** The bounds a version 3 transaction commits to: all three, or L1 gas with zero L2 gas and no data gas. */
  function L1Bounds(m: ResourceBoundsMapping): (b: ResourceBounds)
    ensures m.All? ==> b == m.l1Gas
    ensures m.L1GasOnly? ==> b == m.bounds
  {
    match m
    case All(l1, _, _) => l1
    case L1GasOnly(b) => b
  }

  function L2Bounds(m: ResourceBoundsMapping): (b: ResourceBounds)
    ensures m.All? ==> b == m.l2Gas
    ensures m.L1GasOnly? ==> b == ZERO_BOUNDS
  {
    match m
    case All(_, l2, _) => l2
    case L1GasOnly(_) => ZERO_BOUNDS
  }

  function L1DataBounds(m: ResourceBoundsMapping): (b: Option<ResourceBounds>)
    ensures b.Some? <==> m.All?
    ensures m.All? ==> b == Some(m.l1DataGas)
  {
    match m
    case All(_, _, data) => Some(data)
    case L1GasOnly(_) => None
  }

  /** Hashing is defined for every transaction but a version 0 invoke, which is unimplemented. */
  predicate Hashable(e: ExecutableTx) {
    !(e.ExecInvoke? && e.execInvoke.InvokeV0?)
  }

  /** `InvokeTx::calculate_hash`. */
  function InvokeHash(h: Hashers, tx: InvokeTx, isQuery: bool): (hash: Felt)
    requires !tx.InvokeV0?
    ensures tx.InvokeV1? ==>
              var t := tx.v1;
              hash == h.invokeV1(t.senderAddress, t.calldata, t.maxFee, t.chainId, t.nonce, isQuery)
    ensures tx.InvokeV3? ==>
              var t := tx.v3;
              hash == h.invokeV3(t.senderAddress, t.calldata, t.tip, L1Bounds(t.resourceBounds),
                                 L2Bounds(t.resourceBounds), L1DataBounds(t.resourceBounds), t.paymasterData,
                                 t.chainId, t.nonce, t.nonceDaMode, t.feeDaMode, t.accountDeploymentData, isQuery)
  {
    match tx
    case InvokeV1(t) => h.invokeV1(t.senderAddress, t.calldata, t.maxFee, t.chainId, t.nonce, isQuery)
    case InvokeV3(t) =>
      h.invokeV3(t.senderAddress, t.calldata, t.tip, L1Bounds(t.resourceBounds), L2Bounds(t.resourceBounds),
                 L1DataBounds(t.resourceBounds), t.paymasterData, t.chainId, t.nonce, t.nonceDaMode,
                 t.feeDaMode, t.accountDeploymentData, isQuery)
  }

  /** `DeclareTx::calculate_hash`. */
  function DeclareHash(h: Hashers, tx: DeclareTx, isQuery: bool): (hash: Felt)
    ensures tx.DeclareV0? ==>
              var t := tx.d0;
              hash == h.declareV0(t.senderAddress, t.classHash, t.maxFee, t.chainId, isQuery)
    ensures tx.DeclareV1? ==>
              var t := tx.d1;
              hash == h.declareV1(t.senderAddress, t.classHash, t.maxFee, t.chainId, t.nonce, isQuery)
    ensures tx.DeclareV2? ==>
              var t := tx.d2;
              hash == h.declareV2(t.senderAddress, t.classHash, t.maxFee, t.chainId, t.nonce, t.compiledClassHash, isQuery)
    ensures tx.DeclareV3? ==>
              var t := tx.d3;
              hash == h.declareV3(t.senderAddress, t.classHash, t.compiledClassHash, t.tip, L1Bounds(t.resourceBounds),
                                  L2Bounds(t.resourceBounds), L1DataBounds(t.resourceBounds), t.paymasterData,
                                  t.chainId, t.nonce, t.nonceDaMode, t.feeDaMode, t.accountDeploymentData, isQuery)
  {
    match tx
    case DeclareV0(t) => h.declareV0(t.senderAddress, t.classHash, t.maxFee, t.chainId, isQuery)
    case DeclareV1(t) => h.declareV1(t.senderAddress, t.classHash, t.maxFee, t.chainId, t.nonce, isQuery)
    case DeclareV2(t) =>
      h.declareV2(t.senderAddress, t.classHash, t.maxFee, t.chainId, t.nonce, t.compiledClassHash, isQuery)
    case DeclareV3(t) =>
      h.declareV3(t.senderAddress, t.classHash, t.compiledClassHash, t.tip, L1Bounds(t.resourceBounds),
                  L2Bounds(t.resourceBounds), L1DataBounds(t.resourceBounds), t.paymasterData, t.chainId,
                  t.nonce, t.nonceDaMode, t.feeDaMode, t.accountDeploymentData, isQuery)
  }

  /** `L1HandlerTx::calculate_hash`, which has no query variant. */
  function L1HandlerHash(h: Hashers, tx: L1HandlerTx): (hash: Felt)
    ensures hash == h.l1Handler(tx.version, tx.contractAddress, tx.entryPointSelector, tx.calldata, tx.chainId, tx.nonce)
  {
    h.l1Handler(tx.version, tx.contractAddress, tx.entryPointSelector, tx.calldata, tx.chainId, tx.nonce)
  }

  /** `DeployAccountTx::calculate_hash`. */
  function DeployAccountHash(h: Hashers, tx: DeployAccountTx, isQuery: bool): (hash: Felt)
    ensures tx.DeployAccountV1? ==>
              var t := tx.a1;
              hash == h.deployAccountV1(t.contractAddress, t.constructorCalldata, t.classHash, t.contractAddressSalt,
                                        t.maxFee, t.chainId, t.nonce, isQuery)
    ensures tx.DeployAccountV3? ==>
              var t := tx.a3;
              hash == h.deployAccountV3(t.contractAddress, t.constructorCalldata, t.classHash, t.contractAddressSalt,
                                        t.tip, L1Bounds(t.resourceBounds), L2Bounds(t.resourceBounds),
                                        L1DataBounds(t.resourceBounds), t.paymasterData, t.chainId, t.nonce,
                                        t.nonceDaMode, t.feeDaMode, isQuery)
  {
    match tx
    case DeployAccountV1(t) =>
      h.deployAccountV1(t.contractAddress, t.constructorCalldata, t.classHash, t.contractAddressSalt,
                        t.maxFee, t.chainId, t.nonce, isQuery)
    case DeployAccountV3(t) =>
      h.deployAccountV3(t.contractAddress, t.constructorCalldata, t.classHash, t.contractAddressSalt, t.tip,
                        L1Bounds(t.resourceBounds), L2Bounds(t.resourceBounds), L1DataBounds(t.resourceBounds),
                        t.paymasterData, t.chainId, t.nonce, t.nonceDaMode, t.feeDaMode, isQuery)
  }

  /**
   * `ExecutableTx::calculate_hash`: the hash of the inner transaction; a declare is
   * hashed without its class, and an L1 handler ignores the query flag.
   */
  function CalculateHash(h: Hashers, e: ExecutableTx, isQuery: bool): (hash: Felt)
    requires Hashable(e)
    ensures e.ExecL1Handler? ==> hash == L1HandlerHash(h, e.execL1Handler)
    ensures e.ExecDeclare? ==> hash == DeclareHash(h, e.execDeclare.transaction, isQuery)
    ensures e.ExecInvoke? ==> hash == InvokeHash(h, e.execInvoke, isQuery)
    ensures e.ExecDeployAccount? ==> hash == DeployAccountHash(h, e.execDeployAccount, isQuery)
  {
    match e
    case ExecL1Handler(t) => L1HandlerHash(h, t)
    case ExecInvoke(t) => InvokeHash(h, t, isQuery)
    case ExecDeclare(t) => DeclareHash(h, t.transaction, isQuery)
    case ExecDeployAccount(t) => DeployAccountHash(h, t, isQuery)
  }

  /** The same transaction with another signature; an L1 handler carries none. */
  function WithSignature(e: ExecutableTx, sig: seq<Felt>): (r: ExecutableTx)
    ensures ExecutableType(r) == ExecutableType(e)
    ensures Hashable(r) <==> Hashable(e)
  {
    match e
    case ExecInvoke(i) =>
      ExecInvoke(match i
        case InvokeV0(t) => InvokeV0(t.(signature := sig))
        case InvokeV1(t) => InvokeV1(t.(signature := sig))
        case InvokeV3(t) => InvokeV3(t.(signature := sig)))
    case ExecL1Handler(t) => e
    case ExecDeclare(d) =>
      ExecDeclare(d.(transaction := match d.transaction
        case DeclareV0(t) => DeclareV0(t.(signature := sig))
        case DeclareV1(t) => DeclareV1(t.(signature := sig))
        case DeclareV2(t) => DeclareV2(t.(signature := sig))
        case DeclareV3(t) => DeclareV3(t.(signature := sig))))
    case ExecDeployAccount(a) =>
      ExecDeployAccount(match a
        case DeployAccountV1(t) => DeployAccountV1(t.(signature := sig))
        case DeployAccountV3(t) => DeployAccountV3(t.(signature := sig)))
  }

  /** No variant's hash commits to the signature: re-signing a transaction keeps its hash. */
  lemma HashIgnoresSignature(h: Hashers, e: ExecutableTx, sig: seq<Felt>, isQuery: bool)
    requires Hashable(e)
    ensures CalculateHash(h, WithSignature(e, sig), isQuery) == CalculateHash(h, e, isQuery)
  {
  }

  /**
   * The three bounds a version 3 hash commits to determine the resource-bounds mapping:
   * two mappings with the same committed bounds are the same mapping.
   */
  lemma BoundsDetermineMapping(m: ResourceBoundsMapping, m': ResourceBoundsMapping)
    requires L1Bounds(m) == L1Bounds(m') && L2Bounds(m) == L2Bounds(m') && L1DataBounds(m) == L1DataBounds(m')
    ensures m == m'
  {
  }

  /** The hash of an L1 handler transaction is the same whether or not it is a query. */
  lemma L1HandlerHashIgnoresQuery(h: Hashers, e: ExecutableTx)
    requires e.ExecL1Handler?
    ensures CalculateHash(h, e, true) == CalculateHash(h, e, false)
  {
  }

  /**
   * `ExecutableTxWithHash::new_query`: the transaction with the hash of its own kind,
   * computed for a query or not; that is the hash `calculate_hash` gives.
   */
  function NewQuery(h: Hashers, e: ExecutableTx, isQuery: bool): (r: ExecutableTxWithHash)
    requires Hashable(e)
    ensures r.transaction == e
    ensures r.hash == CalculateHash(h, e, isQuery)
  {
    var hash := match e
      case ExecL1Handler(t) => L1HandlerHash(h, t)
      case ExecInvoke(t) => InvokeHash(h, t, isQuery)
      case ExecDeclare(t) => DeclareHash(h, t.transaction, isQuery)
      case ExecDeployAccount(t) => DeployAccountHash(h, t, isQuery);
    ExecutableTxWithHash(hash, e)
  }

  /** `ExecutableTxWithHash::new`: the transaction with its non-query hash. */
  function New(h: Hashers, e: ExecutableTx): (r: ExecutableTxWithHash)
    requires Hashable(e)
    ensures r.transaction == e
    ensures r.hash == CalculateHash(h, e, false)
  {
    var hash := match e
      case ExecL1Handler(t) => L1HandlerHash(h, t)
      case ExecInvoke(t) => InvokeHash(h, t, false)
      case ExecDeclare(t) => DeclareHash(h, t.transaction, false)
      case ExecDeployAccount(t) => DeployAccountHash(h, t, false);
    ExecutableTxWithHash(hash, e)
  }

  /** `new` is `new_query` with the query flag off. */
  lemma NewIsNonQuery(h: Hashers, e: ExecutableTx)
    requires Hashable(e)
    ensures New(h, e) == NewQuery(h, e, false)
  {
  }

  // ----- Projections and conversions -----

  /** `DeclareTx::class_hash`: the class hash of whichever variant it is. */
  function ClassHash(tx: DeclareTx): Felt {
    match tx
    case DeclareV0(t) => t.classHash
    case DeclareV1(t) => t.classHash
    case DeclareV2(t) => t.classHash
    case DeclareV3(t) => t.classHash
  }

  /** `DeployAccountTx::contract_address`: the address of whichever variant it is. */
  function ContractAddress(tx: DeployAccountTx): Felt {
    match tx
    case DeployAccountV1(t) => t.contractAddress
    case DeployAccountV3(t) => t.contractAddress
  }

  /**
   * `From<ExecutableTxWithHash> for TxWithHash`: keeps the hash, and stores the
   * transaction of the same type (a declare without its class).
   */
  function ToTxWithHash(e: ExecutableTxWithHash): (r: TxWithHash)
    ensures r.hash == e.hash
    ensures Type(r.transaction) == ExecutableType(e.transaction)
  {
    RefKeepsType(e.transaction);
    TxWithHash(e.hash, TxFromRef(ExecutableTxRef(e.transaction)))
  }

  /**
   * Storing an executed transaction loses nothing of it but a declared class: the class
   * hash of a declare, the address of a deploy-account, the version and (for a freshly
   * hashed transaction) the hash all survive the conversion.
   */
  lemma StoredKeepsIdentity(h: Hashers, e: ExecutableTx, isQuery: bool)
    requires Hashable(e)
    ensures var stored := ToTxWithHash(NewQuery(h, e, isQuery));
            && stored.hash == CalculateHash(h, e, isQuery)
            && (e.ExecDeclare? ==> stored.transaction.DeclareTransaction? &&
                                   ClassHash(stored.transaction.declare) == ClassHash(e.execDeclare.transaction))
            && (e.ExecDeployAccount? ==> stored.transaction.DeployAccountTransaction? &&
                                         ContractAddress(stored.transaction.deployAccount) == ContractAddress(e.execDeployAccount))
            && (e.ExecInvoke? ==> stored.transaction == InvokeTransaction(e.execInvoke))
            && (e.ExecL1Handler? ==> stored.transaction == L1HandlerTransaction(e.execL1Handler))
  {
  }
}
