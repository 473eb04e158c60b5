/** The persisted `BurnerStorage` map of the useBurner hook: an association
    list from address to burner record, in key order. */
module BurnerStore {
  import opened Wrappers

  /** Addresses, keys and transaction hashes are hex strings in the hook. */
  type Address = string
  type Hex = string

  /** The value stored under one address. */
  datatype Record = Record(privateKey: Hex, publicKey: Hex, deployTx: Hex, active: bool)

  datatype Entry = Entry(address: Address, record: Record)

  /** One entry per key, as in a JavaScript object. */
  predicate DistinctAddresses(s: seq<Entry>)
  {
    forall i, j :: 0 <= i < j < |s| ==> s[i].address != s[j].address
  }

  /** The "burners" object; the sequence order is the object's key order
      (insertion order, since every key is a "0x" hex address). */
  type Store = s: seq<Entry> | DistinctAddresses(s)

  /** `storage[a]` is defined. */
  predicate Has(s: seq<Entry>, a: Address)
  {
    exists i :: 0 <= i < |s| && s[i].address == a
  }

  predicate NoneActive(s: seq<Entry>)
  {
    forall i :: 0 <= i < |s| ==> !s[i].record.active
  }

  /** Both records hold the same key material and deploy transaction. */
  predicate SameKeys(r: Record, q: Record)
  {
    r.privateKey == q.privateKey && r.publicKey == q.publicKey && r.deployTx == q.deployTx
  }

  /** `t` holds the same addresses as `s`, in the same order, with the same
      keys and deploy transactions: at most the `active` flags differ. */
  predicate SameExceptFlags(s: seq<Entry>, t: seq<Entry>)
  {
    && |t| == |s|
    && forall i :: 0 <= i < |s| ==> t[i].address == s[i].address && SameKeys(t[i].record, s[i].record)
  }

  /** `storage[a]`: the record stored under `a`, if there is one. */
  function Find(s: Store, a: Address): (r: Option<Record>)
    ensures r.None? <==> !Has(s, a)
    ensures forall i :: 0 <= i < |s| && s[i].address == a ==> r == Some(s[i].record)
  {
    if |s| == 0 then None
    else if s[0].address == a then Some(s[0].record)
    else
      var r := Find(s[1..], a);
      assert forall i :: 1 <= i < |s| ==> s[i] == s[1..][i - 1];
      r
  }

  /** The loop that sets `active = false` on every stored record. */
  function DeactivateAll(s: Store): (t: Store)
    ensures SameExceptFlags(s, t)
    ensures NoneActive(t)
  {
    if |s| == 0 then []
    else
      var rest := DeactivateAll(s[1..]);
      assert forall i :: 1 <= i < |s| ==> s[i] == s[1..][i - 1];
      [Entry(s[0].address, s[0].record.(active := false))] + rest
  }

  /** `storage[a].active = true`: raises the flag of the record under `a`. */
  function Activate(s: Store, a: Address): (t: Store)
    ensures SameExceptFlags(s, t)
    ensures forall i :: 0 <= i < |s| ==> t[i].record.active == (s[i].address == a || s[i].record.active)
  {
    if |s| == 0 then []
    else if s[0].address == a then [Entry(a, s[0].record.(active := true))] + s[1..]
    else
      var rest := Activate(s[1..], a);
      assert forall i :: 1 <= i < |s| ==> s[i] == s[1..][i - 1];
      [s[0]] + rest
  }

  /** `storage[a] = r`: an existing key is overwritten where it stands, a
      new key is appended last. */
  function Put(s: Store, a: Address, r: Record): (t: Store)
    ensures |t| == if Has(s, a) then |s| else |s| + 1
    ensures forall i :: 0 <= i < |s| ==> t[i].address == s[i].address
    ensures forall i :: 0 <= i < |s| && s[i].address != a ==> t[i] == s[i]
    ensures forall i :: 0 <= i < |t| && t[i].address == a ==> t[i].record == r
    ensures !Has(s, a) ==> t[|s|].address == a
  {
    if |s| == 0 then [Entry(a, r)]
    else if s[0].address == a then [Entry(a, r)] + s[1..]
    else
      var tail: Store := s[1..];
      var rest := Put(tail, a, r);
      assert forall i :: 1 <= i < |s| ==> s[i] == tail[i - 1];
      assert Has(s, a) == Has(tail, a);
      [s[0]] + rest
  }

  /** Clearing the flags keeps every address stored. */
  lemma ClearKeepsAddresses(s: Store, a: Address)
    ensures Has(DeactivateAll(s), a) == Has(s, a)
  {
    var cleared := DeactivateAll(s);
    if Has(s, a) {
      var i :| 0 <= i < |s| && s[i].address == a;
      assert cleared[i].address == a;
    }
    if Has(cleared, a) {
      var i :| 0 <= i < |cleared| && cleared[i].address == a;
      assert s[i].address == a;
    }
  }

  /** After storing under `a`, the record under `a` is the one stored. */
  lemma PutThenFind(s: Store, a: Address, r: Record)
    ensures Find(Put(s, a, r), a) == Some(r)
  {
    var t := Put(s, a, r);
    if Has(s, a) {
      var i :| 0 <= i < |s| && s[i].address == a;
      assert t[i].address == a;
    } else {
      assert t[|s|].address == a;
    }
  }

  /** Storing an active record into a store with no flag set leaves exactly
      the record under `a` active. */
  lemma PutIntoClearedFlags(s: Store, a: Address, r: Record)
    requires NoneActive(s) && r.active
    ensures forall i :: 0 <= i < |Put(s, a, r)| ==> (Put(s, a, r)[i].record.active <==> Put(s, a, r)[i].address == a)
    ensures ActiveCount(Put(s, a, r)) == 1
  {
    var t := Put(s, a, r);
    forall i | 0 <= i < |t|
      ensures t[i].record.active <==> t[i].address == a
    {
      if t[i].address != a {
        assert i < |s|;
        assert t[i] == s[i];
      }
    }
    PutThenFind(s, a, r);
    SoleActiveCount(t, a);
  }

  /** The index of the first record, in key order, whose flag is set. */
  function FirstActive(s: seq<Entry>): (r: Option<nat>)
    ensures r.None? <==> NoneActive(s)
    ensures r.Some? ==> r.value < |s| && s[r.value].record.active
    ensures r.Some? ==> forall j :: 0 <= j < r.value ==> !s[j].record.active
  {
    if |s| == 0 then None
    else if s[0].record.active then Some(0)
    else
      match FirstActive(s[1..])
      case None => None
      case Some(k) => Some(k + 1)
  }

  /** The number of records whose flag is set. */
  function ActiveCount(s: seq<Entry>): nat
  {
    if |s| == 0 then 0
    else (if s[0].record.active then 1 else 0) + ActiveCount(s[1..])
  }

  /** A store with no flag set counts no active record. */
  lemma {:induction false} NoneActiveCount(s: seq<Entry>)
    requires NoneActive(s)
    ensures ActiveCount(s) == 0
  {
    if |s| > 0 {
      NoneActiveCount(s[1..]);
    }
  }

  /** When exactly the record under `a` is flagged, one record is active. */
  lemma {:induction false} SoleActiveCount(s: Store, a: Address)
    requires Has(s, a)
    requires forall i :: 0 <= i < |s| ==> (s[i].record.active <==> s[i].address == a)
    ensures ActiveCount(s) == 1
  {
    var tail: Store := s[1..];
    if s[0].address == a {
      NoneActiveCount(tail);
    } else {
      assert Has(tail, a) by {
        var i :| 0 <= i < |s| && s[i].address == a;
        assert tail[i - 1].address == a;
      }
      SoleActiveCount(tail, a);
    }
  }

  /** A count of one means a single flagged record, and it is the first one. */
  lemma {:induction false} CountOneIsUnique(s: seq<Entry>)
    requires ActiveCount(s) == 1
    ensures FirstActive(s).Some?
    ensures forall i :: 0 <= i < |s| && s[i].record.active ==> i == FirstActive(s).value
  {
    if s[0].record.active {
      assert ActiveCount(s[1..]) == 0;
      ZeroCountNoneActive(s[1..]);
      assert forall i :: 1 <= i < |s| ==> s[i] == s[1..][i - 1];
    } else {
      CountOneIsUnique(s[1..]);
      assert forall i :: 1 <= i < |s| ==> s[i] == s[1..][i - 1];
    }
  }

  /** A count of zero means no flag is set. */
  lemma {:induction false} ZeroCountNoneActive(s: seq<Entry>)
    requires ActiveCount(s) == 0
    ensures NoneActive(s)
  {
    if |s| > 0 {
      ZeroCountNoneActive(s[1..]);
      assert forall i :: 1 <= i < |s| ==> s[i] == s[1..][i - 1];
    }
  }

  /** Clearing the flags and raising the flag of `a` a second time gives
      back the same store. */
  lemma ReactivateIsNoop(s: Store, a: Address)
    ensures var t := Activate(DeactivateAll(s), a); Activate(DeactivateAll(t), a) == t
  {
    var t := Activate(DeactivateAll(s), a);
    var u := Activate(DeactivateAll(t), a);
    SameExceptFlagsTrans(t, DeactivateAll(t), u);
    FlagsDetermineStore(t, t, u);
  }

  /** Agreeing on everything but the flags is transitive. */
  lemma SameExceptFlagsTrans(s: seq<Entry>, t: seq<Entry>, u: seq<Entry>)
    requires SameExceptFlags(s, t) && SameExceptFlags(t, u)
    ensures SameExceptFlags(s, u)
  {
  }

  /** Two stores that agree with `s` on everything but the flags, and agree
      with each other on the flags, are the same store. */
  lemma FlagsDetermineStore(s: seq<Entry>, t: seq<Entry>, u: seq<Entry>)
    requires SameExceptFlags(s, t) && SameExceptFlags(s, u)
    requires forall i :: 0 <= i < |s| ==> t[i].record.active == u[i].record.active
    ensures t == u
  {
    assert forall i :: 0 <= i < |s| ==> t[i] == u[i];
  }
}
