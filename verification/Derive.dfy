/** Fields a client computes from a decoded transaction. */
module Derive {
  import opened Bytes
  import opened Transactions

  function MinInt(a: int, b: int): int {
    if a < b then a else b
  }

  function SatSubInt(a: int, b: int): int {
    if a < b then 0 else a - b
  }

  // ---------- selecting by index ----------

  /** out is made of the elements of s at the indexes ix, which increase. */
  ghost predicate Selects<T>(out: seq<T>, s: seq<T>, ix: seq<nat>) {
    && |out| == |ix|
    && (forall j :: 0 <= j < |ix| ==> ix[j] < |s| && out[j] == s[ix[j]])
    && (forall i, j :: 0 <= i < j < |ix| ==> ix[i] < ix[j])
  }

  // ---------- static writable accounts ----------

  /** Account i is writable: a signer before the readonly signers, or a non-signer before the readonly tail. */
  predicate Writable(tx: FullTx, i: int) {
    var n := |tx.accountKeys|;
    if i < tx.numRequiredSignatures
    then i + tx.numReadonlySignedAccounts < tx.numRequiredSignatures
    else i + tx.numReadonlyUnsignedAccounts < n
  }

  /** The writable keys among the first k, in index order, each index once. */
  function WritableBelow(tx: FullTx, k: nat): seq<Key>
    requires k <= |tx.accountKeys|
  {
    if k == 0 then [] else
    WritableBelow(tx, k - 1) + if Writable(tx, k - 1) then [tx.accountKeys[k - 1]] else []
  }

  /** A stretch of indexes that are not writable adds nothing. */
  lemma {:induction false} ReadonlyStretch(tx: FullTx, lo: nat, hi: nat)
    requires lo <= hi <= |tx.accountKeys|
    requires forall i :: lo <= i < hi ==> !Writable(tx, i)
    ensures WritableBelow(tx, hi) == WritableBelow(tx, lo)
    decreases hi - lo
  {
    if lo < hi {
      ReadonlyStretch(tx, lo, hi - 1);
    }
  }

  /** The indexes of the keys chosen among the first k. */
  lemma {:induction false} WritableIndexes(tx: FullTx, k: nat) returns (ix: seq<nat>)
    requires k <= |tx.accountKeys|
    ensures Selects(WritableBelow(tx, k), tx.accountKeys, ix)
    ensures forall i: nat :: i in ix <==> i < k && Writable(tx, i)
  {
    if k == 0 {
      ix := [];
    } else {
      var before := WritableIndexes(tx, k - 1);
      assert forall j :: 0 <= j < |before| ==> before[j] in before;
      ix := before + if Writable(tx, k - 1) then [k - 1] else [];
    }
  }

  /** An index is chosen: a signer before the readonly signers, or a non-signer before the readonly non-signers. */
  lemma WritableAre(tx: FullTx)
    ensures exists ix: seq<nat> ::
              && Selects(WritableBelow(tx, |tx.accountKeys|), tx.accountKeys, ix)
              && forall i: nat :: i in ix <==>
                   var n, signers := |tx.accountKeys|, tx.numRequiredSignatures;
                   i < n && ((i < signers && i + tx.numReadonlySignedAccounts < signers)
                             || (signers <= i && i + tx.numReadonlyUnsignedAccounts < n))
  {
    var ix := WritableIndexes(tx, |tx.accountKeys|);
    assert Selects(WritableBelow(tx, |tx.accountKeys|), tx.accountKeys, ix);
  }

  /**
   Exactly the keys at these indexes, in index order, for all header counts,
   consistent or not: a signer in front of the readonly signers, or a non-signer
   in front of the readonly non-signers, which end the key list.
   */
  method StaticWritableAccounts(tx: FullTx) returns (out: seq<Key>)
    ensures out == WritableBelow(tx, |tx.accountKeys|)
    ensures exists ix: seq<nat> ::
              && Selects(out, tx.accountKeys, ix)
              && forall i: nat :: i in ix <==>
                   var n, signers := |tx.accountKeys|, tx.numRequiredSignatures;
                   i < n && ((i < signers && i + tx.numReadonlySignedAccounts < signers)
                             || (signers <= i && i + tx.numReadonlyUnsignedAccounts < n))
  {
    hide Selects;
    var n := |tx.accountKeys|;
    var nrs := tx.numRequiredSignatures;
    var nrsa := tx.numReadonlySignedAccounts;
    var nrua := tx.numReadonlyUnsignedAccounts;

    out := [];
    var signedWritableEnd := MinInt(SatSubInt(nrs, nrsa), n);
    var i := 0;
    while i < signedWritableEnd
      invariant 0 <= i <= signedWritableEnd
      invariant out == WritableBelow(tx, i)
    {
      out := out + [tx.accountKeys[i]];
      i := i + 1;
    }
    var unsignedStart := MinInt(nrs, n);
    ReadonlyStretch(tx, signedWritableEnd, unsignedStart);
    var unsignedEnd := SatSubInt(n, nrua);
    i := unsignedStart;
    while i < unsignedEnd
      invariant unsignedStart <= i <= n && (i <= unsignedEnd || i == unsignedStart)
      invariant out == WritableBelow(tx, i)
    {
      out := out + [tx.accountKeys[i]];
      i := i + 1;
    }
    ReadonlyStretch(tx, i, n);
    WritableAre(tx);
  }

  // ---------- program ids ----------

  /** The keys the instructions invoke, in order, skipping indexes out of range. */
  function Invoked(tx: FullTx, k: nat): seq<Key>
    requires k <= |tx.instructions|
  {
    if k == 0 then [] else
    var idx := tx.instructions[k - 1].programIdIndex;
    Invoked(tx, k - 1) + if idx < |tx.accountKeys| then [tx.accountKeys[idx]] else []
  }

  /**
   What is invoked, by index: one key for each instruction whose program index
   is in range, in instruction order, and nothing for the others.
   */
  lemma {:induction false} InvokedIndexes(tx: FullTx, k: nat) returns (ix: seq<nat>)
    requires k <= |tx.instructions|
    ensures |Invoked(tx, k)| == |ix|
    ensures forall j :: 0 <= j < |ix| ==>
              && ix[j] < k && tx.instructions[ix[j]].programIdIndex < |tx.accountKeys|
              && Invoked(tx, k)[j] == tx.accountKeys[tx.instructions[ix[j]].programIdIndex]
    ensures forall i, j :: 0 <= i < j < |ix| ==> ix[i] < ix[j]
    ensures forall i: nat :: i < k && tx.instructions[i].programIdIndex < |tx.accountKeys| ==> i in ix
  {
    if k == 0 {
      ix := [];
    } else {
      ix := InvokedIndexes(tx, k - 1);
      if tx.instructions[k - 1].programIdIndex < |tx.accountKeys| {
        ix := ix + [k - 1];
      }
    }
  }

  ghost predicate NoDuplicates<T>(s: seq<T>) {
    forall i, j :: 0 <= i < j < |s| ==> s[i] != s[j]
  }

  /** Where k first occurs in s. */
  ghost function FirstUse<T>(s: seq<T>, k: T): (i: nat)
    requires k in s
    ensures i < |s| && s[i] == k && k !in s[..i]
  {
    if s[0] == k then 0 else
    var i := 1 + FirstUse(s[1..], k);
    assert s[..i] == [s[0]] + s[1..][..i - 1];
    i
  }

  /** out lists the elements of s without repetition, in the order of their first use. */
  ghost predicate ListsByFirstUse<T(!new)>(out: seq<T>, s: seq<T>) {
    && NoDuplicates(out)
    && (forall k :: k in out <==> k in s)
    && (forall i, j :: 0 <= i < j < |out| && out[i] in s && out[j] in s ==>
          FirstUse(s, out[i]) < FirstUse(s, out[j]))
  }

  ghost predicate ByFirstUse<T>(a: seq<T>, s: seq<T>) {
    && (forall k <- a :: k in s)
    && (forall i, j :: 0 <= i < j < |a| ==> FirstUse(s, a[i]) < FirstUse(s, a[j]))
  }

  lemma ByFirstUseTail<T>(a: seq<T>, s: seq<T>)
    requires ByFirstUse(a, s) && a != []
    ensures ByFirstUse(a[1..], s)
    ensures forall k :: k in a[1..] <==> k in a && k != a[0]
  {
    assert a == [a[0]] + a[1..];
    assert forall j :: 0 < j < |a| ==> a[j] != a[0];
  }

  lemma {:induction false} OrderIsUnique<T>(a: seq<T>, b: seq<T>, s: seq<T>)
    requires ByFirstUse(a, s) && ByFirstUse(b, s)
    requires forall k :: k in a <==> k in b
    ensures a == b
  {
    assert b != [] ==> b[0] in a;
    if a != [] {
      assert a[0] in b;
      var j :| 0 <= j < |b| && b[j] == a[0];
      var i :| 0 <= i < |a| && a[i] == b[0];
      assert FirstUse(s, a[0]) <= FirstUse(s, a[i]) && FirstUse(s, b[0]) <= FirstUse(s, b[j]);
      assert a[0] == b[0];
      ByFirstUseTail(a, s);
      ByFirstUseTail(b, s);
      OrderIsUnique(a[1..], b[1..], s);
    }
  }

  /** The contract of ProgramIDs leaves exactly one answer. */
  lemma ListingIsUnique<T(!new)>(a: seq<T>, b: seq<T>, s: seq<T>)
    requires ListsByFirstUse(a, s) && ListsByFirstUse(b, s)
    ensures a == b
  {
    assert forall k <- a :: k in s;
    OrderIsUnique(a, b, s);
  }

  /** Adding x at the end moves no earlier first use. */
  lemma {:induction false} FirstUseSnoc<T>(s: seq<T>, x: T, k: T)
    requires k in s + [x]
    ensures FirstUse(s + [x], k) == if k in s then FirstUse(s, k) else |s|
  {
    if s == [] {
      assert s + [x] == [x];
    } else if s[0] != k {
      assert (s + [x])[1..] == s[1..] + [x];
      assert s == [s[0]] + s[1..];
      FirstUseSnoc(s[1..], x, k);
    }
  }

  lemma ListingSnoc<T(!new)>(out: seq<T>, s: seq<T>, x: T)
    requires ListsByFirstUse(out, s)
    ensures x in s <==> x in out
    ensures ListsByFirstUse(if x in s then out else out + [x], s + [x])
  {
    forall k | k in s + [x] ensures FirstUse(s + [x], k) == if k in s then FirstUse(s, k) else |s| {
      FirstUseSnoc(s, x, k);
    }
    hide FirstUse;
  }

  lemma NothingListed()
    ensures ListsByFirstUse<Key>([], [])
  {
  }

  /** Each invoked program once, in order of first use. */
  method ProgramIDs(tx: FullTx) returns (out: seq<Key>)
    ensures ListsByFirstUse(out, Invoked(tx, |tx.instructions|))
  {
    hide ListsByFirstUse;
    out := [];
    NothingListed();
    var seen: map<Key, bool> := map[];
    for i := 0 to |tx.instructions|
      invariant ListsByFirstUse(out, Invoked(tx, i))
      invariant forall k :: k in seen <==> k in out
      invariant forall k <- seen :: seen[k]
    {
      var idx := tx.instructions[i].programIdIndex;
      if idx < 0 || idx >= |tx.accountKeys| {
        assert Invoked(tx, i) + [] == Invoked(tx, i);
        continue;
      }
      var k := tx.accountKeys[idx];
      ListingSnoc(out, Invoked(tx, i), k);
      if !(k in seen && seen[k]) {
        seen := seen[k := true];
        out := out + [k];
      }
    }
  }
}
