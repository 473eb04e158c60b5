/** The store-facing operations of the useBurner hook: list, select, get,
    the save step of create, and the restore effect that runs at mount.
    React state becomes the explicit `current` field of `State`; chain
    results (the receipt probe, the deploy transaction) are inputs. */
module UseBurner {
  import opened Wrappers
  import opened BurnerStore

  /** `new Account(provider, address, privateKey)`: the signer handed out. */
  datatype Signer = Signer(address: Address, privateKey: Hex)

  /** The persisted "burners" entry, absent or present, and the hook's
      `account` state. */
  datatype State = State(persisted: Option<Store>, current: Option<Signer>)

  datatype Error =
    | BurnerNotFound          // "burner not found" from select and get
    | WalletAccountNotFound   // "wallet account not found" from create
    | DeployRejected          // deployAccount rejected; the error leaves create
    | NoRecordToProbe         // restore reads `.deployTx` of a missing first record

  /** One element of the array `list()` returns. */
  datatype Listing = Listing(address: Address, active: bool)

  /** The key material create derives from a random private key. */
  datatype Keys = Keys(privateKey: Hex, publicKey: Hex, address: Address)

  /** What the chain answered during create: whether a master account was
      passed, whether the prefund transfer was accepted, and the hash of the
      submitted deploy transaction (None when the submission was rejected). */
  datatype ChainReplies = ChainReplies(masterPresent: bool, prefundAccepted: bool, deployTx: Option<Hex>)

  datatype Created = Created(state: State, signer: Signer)

  /** The state after the restore effect, and whether the probe declared the
      stored burners stale ("burners not deployed, chain may have restarted"). */
  datatype Restored = Restored(state: State, stale: bool)

  /** `Storage.get("burners") || {}` */
  function Load(p: Option<Store>): Store
  {
    match p
    case None => []
    case Some(s) => s
  }

  /** Entry `i` is active and no earlier entry is. */
  predicate IsFirstActive(s: seq<Entry>, i: nat)
    requires i < |s|
  {
    s[i].record.active && forall j :: 0 <= j < i ==> !s[j].record.active
  }

  function SignerAt(s: seq<Entry>, i: nat): Signer
    requires i < |s|
  {
    Signer(s[i].address, s[i].record.privateKey)
  }

  /** Projects every entry to its address and flag, keeping the order. */
  function Project(s: seq<Entry>): (r: seq<Listing>)
    ensures |r| == |s|
    ensures forall i :: 0 <= i < |s| ==> r[i].address == s[i].address && r[i].active == s[i].record.active
  {
    if |s| == 0 then []
    else
      var rest := Project(s[1..]);
      assert forall i :: 1 <= i < |s| ==> s[i] == s[1..][i - 1];
      [Listing(s[0].address, s[0].record.active)] + rest
  }

  /** `list()`: one listing per stored address, in key order; a missing
      store lists nothing. */
  function List(st: State): (r: seq<Listing>)
    ensures st.persisted.None? ==> r == []
    ensures st.persisted.Some? ==> |r| == |st.persisted.value|
    ensures st.persisted.Some? ==> forall i :: 0 <= i < |r| ==>
              r[i] == Listing(st.persisted.value[i].address, st.persisted.value[i].record.active)
  {
    Project(Load(st.persisted))
  }

  /** `get(a)`: a signer for the record under `a`; never writes the store. */
  function Get(st: State, a: Address): (r: Result<Signer, Error>)
    ensures r.Failure? <==> !Has(Load(st.persisted), a)
    ensures r.Failure? ==> r.error == BurnerNotFound
    ensures r.Success? ==> forall i :: 0 <= i < |Load(st.persisted)| && Load(st.persisted)[i].address == a ==>
              r.value == SignerAt(Load(st.persisted), i)
  {
    match Find(Load(st.persisted), a)
    case None => Failure(BurnerNotFound)
    case Some(rec) => Success(Signer(a, rec.privateKey))
  }

  /** `select(a)`: fails before any write when `a` is absent; otherwise
      clears every flag, raises the flag of `a`, saves the store and makes
      the signer for `a` the current account. */
  function Select(st: State, a: Address): (r: Result<State, Error>)
    ensures r.Failure? <==> !Has(Load(st.persisted), a)
    ensures r.Failure? ==> r.error == BurnerNotFound
    ensures r.Success? ==> r.value.persisted.Some?
    ensures r.Success? ==> SameExceptFlags(Load(st.persisted), r.value.persisted.value)
    ensures r.Success? ==> forall i :: 0 <= i < |r.value.persisted.value| ==>
              (r.value.persisted.value[i].record.active <==> r.value.persisted.value[i].address == a)
    ensures r.Success? ==> ActiveCount(r.value.persisted.value) == 1
    ensures r.Success? ==> forall i :: 0 <= i < |Load(st.persisted)| && Load(st.persisted)[i].address == a ==>
              r.value.current == Some(SignerAt(Load(st.persisted), i))
  {
    var s := Load(st.persisted);
    match Find(s, a)
    case None => Failure(BurnerNotFound)
    case Some(rec) =>
      var t := Activate(DeactivateAll(s), a);
      SoleActiveCount(t, a);
      Success(State(Some(t), Some(Signer(a, rec.privateKey))))
  }

  /** The save step of create: every stored record is deactivated, then the
      new record is stored, active, under its address. */
  function SaveNew(s: Store, keys: Keys, deployTx: Hex): (t: Store)
    ensures Find(t, keys.address) == Some(Record(keys.privateKey, keys.publicKey, deployTx, true))
    ensures |t| == if Has(s, keys.address) then |s| else |s| + 1
    ensures forall i :: 0 <= i < |s| ==> t[i].address == s[i].address
    ensures forall i :: |s| <= i < |t| ==> t[i].address == keys.address
    ensures forall i :: 0 <= i < |s| && s[i].address != keys.address ==>
              SameKeys(t[i].record, s[i].record) && !t[i].record.active
    ensures forall i :: 0 <= i < |t| ==> (t[i].record.active <==> t[i].address == keys.address)
    ensures ActiveCount(t) == 1
  {
    var rec := Record(keys.privateKey, keys.publicKey, deployTx, true);
    var cleared := DeactivateAll(s);
    var t := Put(cleared, keys.address, rec);
    ClearKeepsAddresses(s, keys.address);
    PutThenFind(cleared, keys.address, rec);
    PutIntoClearedFlags(cleared, keys.address, rec);
    assert forall i :: 0 <= i < |s| && s[i].address != keys.address ==> t[i] == cleared[i];
    t
  }

  /** `create()`: the key material and the chain's replies are inputs. A
      missing master account throws; a failed prefund is swallowed and the
      deploy is submitted anyway; a rejected deploy throws before the save
      step; otherwise the new burner is saved active and becomes current. */
  function Create(st: State, keys: Keys, chain: ChainReplies): (r: Result<Created, Error>)
    ensures !chain.masterPresent ==> r == Failure(WalletAccountNotFound)
    ensures chain.masterPresent && chain.deployTx.None? ==> r == Failure(DeployRejected)
    ensures r.Success? <==> chain.masterPresent && chain.deployTx.Some?
    ensures r.Success? ==> r.value.signer == Signer(keys.address, keys.privateKey)
    ensures r.Success? ==> r.value.state.current == Some(r.value.signer)
    ensures r.Success? ==> r.value.state.persisted == Some(SaveNew(Load(st.persisted), keys, chain.deployTx.value))
    ensures r.Success? ==>
              Find(r.value.state.persisted.value, keys.address) == Some(Record(keys.privateKey, keys.publicKey, chain.deployTx.value, true))
    ensures r.Success? ==> ActiveCount(r.value.state.persisted.value) == 1
  {
    if !chain.masterPresent then Failure(WalletAccountNotFound)
    else match chain.deployTx
      case None => Failure(DeployRejected)
      case Some(tx) =>
        var signer := Signer(keys.address, keys.privateKey);
        Success(Created(State(Some(SaveNew(Load(st.persisted), keys, tx)), Some(signer)), signer))
  }

  /** The restore effect at mount. An absent store sets nothing. With a
      master account, the receipt of the first record's deploy transaction is
      probed (an empty store makes that read throw); a failed probe removes
      the whole "burners" entry and unsets the account. Otherwise the first
      active record in key order becomes the current account, if any. */
  function Restore(st: State, masterPresent: bool, receiptFound: Hex -> bool): (r: Result<Restored, Error>)
    ensures r.Failure? <==> masterPresent && st.persisted == Some([])
    ensures r.Failure? ==> r.error == NoRecordToProbe
    ensures r.Success? ==> (r.value.stale <==>
              masterPresent && st.persisted.Some? && |st.persisted.value| > 0
              && !receiptFound(st.persisted.value[0].record.deployTx))
    ensures r.Success? && r.value.stale ==> r.value.state == State(None, None)
    ensures r.Success? && !r.value.stale ==> r.value.state.persisted == st.persisted
    ensures r.Success? && !r.value.stale && (st.persisted.None? || NoneActive(st.persisted.value)) ==>
              r.value.state.current == st.current
    ensures r.Success? && !r.value.stale && st.persisted.Some? ==>
              forall i :: 0 <= i < |st.persisted.value| && IsFirstActive(st.persisted.value, i) ==>
                r.value.state.current == Some(SignerAt(st.persisted.value, i))
  {
    match st.persisted
    case None => Success(Restored(st, false))
    case Some(s) =>
      if masterPresent && |s| == 0 then Failure(NoRecordToProbe)
      else if masterPresent && !receiptFound(s[0].record.deployTx) then Success(Restored(State(None, None), true))
      else
        match FirstActive(s)
        case None => Success(Restored(st, false))
        case Some(k) => Success(Restored(State(st.persisted, Some(SignerAt(s, k))), false))
  }
}
