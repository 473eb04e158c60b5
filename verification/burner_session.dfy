/** Sequences of hook calls against one persisted store, and the invariants
    they keep: a present store has exactly one active burner, and the
    current account is the signer of that burner. */
module BurnerSession {
  import opened Wrappers
  import opened BurnerStore
  import opened UseBurner

  /** One call into the hook, with the chain's replies as inputs. */
  datatype Op =
    | SelectOp(address: Address)
    | GetOp(address: Address)
    | ListOp
    | CreateOp(keys: Keys, chain: ChainReplies)
    | RestoreOp(masterPresent: bool, receiptFound: Hex -> bool)

  /** The state after one call; a call that throws leaves it as it was. */
  function Step(st: State, op: Op): State
  {
    match op
    case SelectOp(a) =>
      (match Select(st, a)
       case Success(next) => next
       case Failure(_) => st)
    case GetOp(_) => st
    case ListOp => st
    case CreateOp(keys, chain) =>
      (match Create(st, keys, chain)
       case Success(created) => created.state
       case Failure(_) => st)
    case RestoreOp(masterPresent, receiptFound) =>
      (match Restore(st, masterPresent, receiptFound)
       case Success(restored) => restored.state
       case Failure(_) => st)
  }

  function Run(st: State, ops: seq<Op>): State
    decreases |ops|
  {
    if |ops| == 0 then st else Run(Step(st, ops[0]), ops[1..])
  }

  /** The current account is the signer of an active stored record. */
  predicate CurrentIsActive(st: State)
  {
    st.current.Some? ==>
      && st.persisted.Some?
      && exists i :: 0 <= i < |st.persisted.value| && st.persisted.value[i].record.active
           && st.current.value == SignerAt(st.persisted.value, i)
  }

  /** The session invariant. */
  predicate Inv(st: State)
  {
    && (st.persisted.Some? ==> ActiveCount(st.persisted.value) == 1)
    && CurrentIsActive(st)
  }

  /** A fresh install (nothing persisted, no account) satisfies it. */
  lemma FreshStateInv()
    ensures Inv(State(None, None))
  {
  }

  /** Under the invariant the restore effect never reaches the throwing read
      of a missing first record. */
  lemma RestoreSucceedsUnderInv(st: State, masterPresent: bool, receiptFound: Hex -> bool)
    requires Inv(st)
    ensures Restore(st, masterPresent, receiptFound).Success?
  {
  }

  /** Under the invariant a restore that finds the store live makes the
      signer of the one active record current. */
  lemma {:induction false} RestoreSelectsTheActive(st: State, masterPresent: bool, receiptFound: Hex -> bool, s: Store)
    requires Inv(st) && st.persisted == Some(s)
    requires !masterPresent || receiptFound(s[0].record.deployTx)
    ensures forall i :: 0 <= i < |s| && s[i].record.active ==>
              Restore(st, masterPresent, receiptFound) == Success(Restored(State(Some(s), Some(SignerAt(s, i))), false))
  {
    CountOneIsUnique(s);
    var k := FirstActive(s).value;
    assert IsFirstActive(s, k);
  }

  /** Every call keeps the invariant. */
  lemma StepPreservesInv(st: State, op: Op)
    requires Inv(st)
    ensures Inv(Step(st, op))
  {
    match op
    case SelectOp(a) =>
      var r := Select(st, a);
      if r.Success? {
        var s := Load(st.persisted);
        var i :| 0 <= i < |s| && s[i].address == a;
        assert r.value.persisted.value[i].record.active;
      }
    case GetOp(_) =>
    case ListOp =>
    case CreateOp(keys, chain) =>
      var r := Create(st, keys, chain);
      if r.Success? {
        var t := r.value.state.persisted.value;
        var i :| 0 <= i < |t| && t[i].address == keys.address;
        assert t[i].record == Record(keys.privateKey, keys.publicKey, chain.deployTx.value, true);
      }
    case RestoreOp(masterPresent, receiptFound) =>
      var r := Restore(st, masterPresent, receiptFound);
      if r.Success? && !r.value.stale && st.persisted.Some? {
        var s := st.persisted.value;
        CountOneIsUnique(s);
        var k := FirstActive(s).value;
        assert IsFirstActive(s, k);
      }
  }

  /** Any sequence of calls keeps the invariant. The second ensures is a
      corollary of the first, spelled out: no sequence of selects and
      creates leaves two burners active. */
  lemma {:induction false} RunPreservesInv(st: State, ops: seq<Op>)
    requires Inv(st)
    ensures Inv(Run(st, ops))
    ensures Run(st, ops).persisted.Some? ==> ActiveCount(Run(st, ops).persisted.value) <= 1
    decreases |ops|
  {
    if |ops| > 0 {
      StepPreservesInv(st, ops[0]);
      RunPreservesInv(Step(st, ops[0]), ops[1..]);
    }
  }

  /** A failed select, a get and a list leave the store and account alone.
      The get and list half holds by construction of `Step`; the failed
      select half rests on `Select` failing exactly when the address is
      absent. */
  lemma ReadsAndFailedSelectKeepState(st: State, a: Address)
    ensures Step(st, GetOp(a)) == st && Step(st, ListOp) == st
    ensures !Has(Load(st.persisted), a) ==> Step(st, SelectOp(a)) == st
  {
  }

  /** Selecting changes no lookup: every address still resolves, or still
      fails, and yields the same signer as before. */
  lemma SelectKeepsLookups(st: State, a: Address, b: Address)
    requires Select(st, a).Success?
    ensures Get(Select(st, a).value, b) == Get(st, b)
  {
    var s := Load(st.persisted);
    var t := Select(st, a).value.persisted.value;
    assert Has(t, b) == Has(s, b) by {
      if Has(t, b) {
        var i :| 0 <= i < |t| && t[i].address == b;
        assert s[i].address == b;
      }
      if Has(s, b) {
        var i :| 0 <= i < |s| && s[i].address == b;
        assert t[i].address == b;
      }
    }
    if Has(s, b) {
      var i :| 0 <= i < |s| && s[i].address == b;
      assert t[i].address == b;
    }
  }

  /** Selecting the same burner twice is the same as selecting it once. */
  lemma SelectIdempotent(st: State, a: Address)
    requires Select(st, a).Success?
    ensures Select(Select(st, a).value, a) == Select(st, a)
  {
    var s := Load(st.persisted);
    var t := Activate(DeactivateAll(s), a);
    var once := Select(st, a).value;
    assert once.persisted == Some(t);
    ReactivateIsNoop(s, a);
    var i :| 0 <= i < |s| && s[i].address == a;
    assert t[i].address == a;
    assert Find(t, a).value.privateKey == Find(s, a).value.privateKey;
  }

  /** The listing names exactly the addresses get resolves, each with the
      flag of its record. */
  lemma ListAgreesWithGet(st: State, a: Address)
    ensures Get(st, a).Success? <==> exists i :: 0 <= i < |List(st)| && List(st)[i].address == a
    ensures forall i :: 0 <= i < |List(st)| && List(st)[i].address == a ==>
              Find(Load(st.persisted), a).Some? && Find(Load(st.persisted), a).value.active == List(st)[i].active
  {
    var s := Load(st.persisted);
    var l := List(st);
    if Has(s, a) {
      var i :| 0 <= i < |s| && s[i].address == a;
      assert l[i].address == a;
    }
  }

  /** Creating a burner keeps every other address's lookup as it was. */
  lemma CreateKeepsOtherLookups(st: State, keys: Keys, chain: ChainReplies, b: Address)
    requires Create(st, keys, chain).Success?
    requires b != keys.address
    ensures Get(Create(st, keys, chain).value.state, b) == Get(st, b)
  {
    var s := Load(st.persisted);
    var t := Create(st, keys, chain).value.state.persisted.value;
    assert Has(t, b) == Has(s, b) by {
      if Has(t, b) {
        var i :| 0 <= i < |t| && t[i].address == b;
        assert i < |s|;
        assert s[i].address == b;
      }
      if Has(s, b) {
        var i :| 0 <= i < |s| && s[i].address == b;
        assert t[i].address == b;
      }
    }
    if Has(s, b) {
      var i :| 0 <= i < |s| && s[i].address == b;
      assert t[i].address == b;
    }
  }

  /** The outcome of create does not depend on whether the prefund transfer
      was accepted: the funding error is caught and the deploy goes ahead. */
  lemma CreateIgnoresPrefund(st: State, keys: Keys, chain: ChainReplies)
    ensures Create(st, keys, chain) == Create(st, keys, chain.(prefundAccepted := !chain.prefundAccepted))
  {
  }

  /** A failed create (no master account, or a rejected deploy) leaves the
      store and account unchanged. */
  lemma FailedCreateKeepsState(st: State, keys: Keys, chain: ChainReplies)
    requires !chain.masterPresent || chain.deployTx.None?
    ensures Step(st, CreateOp(keys, chain)) == st
  {
  }

  /** True when no call in `ops` is a create. */
  predicate NoCreate(ops: seq<Op>)
  {
    forall k :: 0 <= k < |ops| ==> !ops[k].CreateOp?
  }

  /** After a stale restore the listing is empty, however many burners were
      stored, and stays empty through any calls other than create. */
  lemma {:induction false} StaleRestoreEmptiesList(st: State, masterPresent: bool, receiptFound: Hex -> bool, ops: seq<Op>)
    requires Restore(st, masterPresent, receiptFound).Success?
    requires Restore(st, masterPresent, receiptFound).value.stale
    requires NoCreate(ops)
    ensures List(Run(Restore(st, masterPresent, receiptFound).value.state, ops)) == []
  {
    EmptyStaysEmpty(Restore(st, masterPresent, receiptFound).value.state, ops);
  }

  /** With nothing persisted, only a create can bring a burner back. */
  lemma {:induction false} EmptyStaysEmpty(st: State, ops: seq<Op>)
    requires st.persisted.None?
    requires NoCreate(ops)
    ensures Run(st, ops).persisted.None?
    decreases |ops|
  {
    if |ops| > 0 {
      assert !ops[0].CreateOp?;
      assert NoCreate(ops[1..]) by {
        forall k | 0 <= k < |ops[1..]|
          ensures !ops[1..][k].CreateOp?
        {
          assert ops[1..][k] == ops[k + 1];
        }
      }
      EmptyStaysEmpty(Step(st, ops[0]), ops[1..]);
    }
  }

  /** Two stored burners, A active and B not: selecting B moves the flag to
      B, and A still resolves to its own signer. */
  lemma SelectScenario()
    ensures
      var a := Entry("0xa", Record("ka", "pa", "ta", true));
      var b := Entry("0xb", Record("kb", "pb", "tb", false));
      var st := State(Some([a, b]), Some(Signer("0xa", "ka")));
      && Select(st, "0xb") == Success(State(Some([a.(record := a.record.(active := false)),
                                                  b.(record := b.record.(active := true))]),
                                            Some(Signer("0xb", "kb"))))
      && Get(Select(st, "0xb").value, "0xa") == Success(Signer("0xa", "ka"))
  {
    var a := Entry("0xa", Record("ka", "pa", "ta", true));
    var b := Entry("0xb", Record("kb", "pb", "tb", false));
    var st := State(Some([a, b]), Some(Signer("0xa", "ka")));
    assert [a, b][1].address == "0xb";
    var r := Select(st, "0xb");
    var t := r.value.persisted.value;
    assert t[0].record.active == false;
    assert t[1].record.active == true;
    assert t == [a.(record := a.record.(active := false)), b.(record := b.record.(active := true))];
    assert r.value.current == Some(Signer("0xb", "kb"));
  }

  /** Selecting on an empty store fails with "burner not found". */
  lemma SelectOnEmptyStoreFails(st: State)
    requires st.persisted.None? || st.persisted == Some([])
    ensures Select(st, "0xdeadbeef") == Failure(BurnerNotFound)
  {
  }
}
