/**
  The get-address command: hand out the wallet's next receive address and
  advance its counter, writing the wallet back before the address is encoded
  and returned.
 */
module AddressDeriver {
  import opened Wrappers
  import opened WalletModel
  import BalanceReconciler

  /** Past this many issued addresses the command advises consolidating the wallet. */
  const AdvisoryThreshold: nat := 100

  /** The advisory is printed at most once, and never after the wallet is written. */
  predicate AdvisoryOnceBeforeSave(events: seq<Event>) {
    && (forall i, j | 0 <= i < j < |events| :: !(events[i].Advisory? && events[j].Advisory?))
    && (forall i, j | 0 <= i < j < |events| :: !(events[i].Save? && events[j].Advisory?))
  }

  /**
    Issues the next address of wallet `name` from the files `wallets`:
    rejects a missing name before anything is opened, derives the leaf at the
    counter's current value, increments the counter, prints the advisory when
    the new counter exceeds the threshold, writes the wallet (`saveSucceeds`
    is whether the write works) and only then encodes the address.
   */
  function GetAddress<S, N>(name: Option<string>, bitbox: Bitbox<S, N>, wallets: map<string, Wallet>, saveSucceeds: bool)
    : (run: Run<string>)
    ensures AdvisoryOnceBeforeSave(run.events)
    ensures NameMissing(name) ==> run == Run(Failure(MissingName), [])
    ensures NameMissing(name) ==> Message(run.result.error) == Some("You must specify a wallet with the -n flag.")
    ensures !NameMissing(name) && name.value !in wallets ==> run == Run(Failure(CannotOpen(name.value)), [Open(name.value)])
    ensures !NameMissing(name) && name.value !in wallets ==> Message(run.result.error) == Some("Could not open " + name.value + ".json")
    ensures !NameMissing(name) && name.value in wallets ==>
              var w := wallets[name.value];
              var next := w.(nextAddress := w.nextAddress + 1);
              && (forall e | e in run.events && e.Advisory? :: e == Advisory(next.nextAddress))
              && (Advisory(next.nextAddress) in run.events <==> next.nextAddress > AdvisoryThreshold)
              && (run.result.Success? <==> saveSucceeds)
              && (saveSucceeds ==>
                    && run.result.value == GenerateAddress(bitbox.lib, w, w.nextAddress)
                    && WithoutAdvisories(run.events) == [Open(name.value), Save(name.value, next, true), Encoded(run.result.value)])
              && (!saveSucceeds ==>
                    && run.result.error == SaveFailed(name.value)
                    && WithoutAdvisories(run.events) == [Open(name.value), Save(name.value, next, false)])
  {
    if NameMissing(name) then Run(Failure(MissingName), [])
    else if name.value !in wallets then Run(Failure(CannotOpen(name.value)), [Open(name.value)])
    else
      var n := name.value;
      var w := wallets[n];
      var leaf := DeriveNode(bitbox.lib, PlanDerivation(w, w.nextAddress));
      var next := w.(nextAddress := w.nextAddress + 1);
      var advisory := if next.nextAddress > AdvisoryThreshold then [Advisory(next.nextAddress)] else [];
      var saved := [Open(n)] + advisory + [Save(n, next, saveSucceeds)];
      var address := bitbox.lib.toCashAddress(leaf);
      AllocationTrace(n, next, saveSucceeds, address);
      if !saveSucceeds then Run(Failure(SaveFailed(n)), saved)
      else Run(Success(address), saved + [Encoded(address)])
  }

  /**
    The effects of one allocation: the open, the advisory exactly when the new
    counter is past the threshold, the write, and (when the write succeeds) the
    encoding of the address.
   */
  lemma AllocationTrace(n: string, next: Wallet, saveSucceeds: bool, address: string)
    ensures var advisory := if next.nextAddress > AdvisoryThreshold then [Advisory(next.nextAddress)] else [];
            var saved := [Open(n)] + advisory + [Save(n, next, saveSucceeds)];
            var encoded := saved + [Encoded(address)];
            && WithoutAdvisories(saved) == [Open(n), Save(n, next, saveSucceeds)]
            && WithoutAdvisories(encoded) == [Open(n), Save(n, next, saveSucceeds), Encoded(address)]
            && (Advisory(next.nextAddress) in saved <==> next.nextAddress > AdvisoryThreshold)
            && (Advisory(next.nextAddress) in encoded <==> next.nextAddress > AdvisoryThreshold)
            && (forall e | e in encoded && e.Advisory? :: e == Advisory(next.nextAddress))
            && AdvisoryOnceBeforeSave(saved)
            && AdvisoryOnceBeforeSave(encoded)
  {
    AllocationOrder(n, next, saveSucceeds, address);
    var advisory := if next.nextAddress > AdvisoryThreshold then [Advisory(next.nextAddress)] else [];
    var saved := [Open(n)] + advisory + [Save(n, next, saveSucceeds)];
    WithoutAdvisoriesAppend([Open(n)], advisory);
    WithoutAdvisoriesAppend([Open(n)] + advisory, [Save(n, next, saveSucceeds)]);
    WithoutAdvisoriesAppend(saved, [Encoded(address)]);
    assert WithoutAdvisories([Open(n)]) == [Open(n)];
    assert WithoutAdvisories([Save(n, next, saveSucceeds)]) == [Save(n, next, saveSucceeds)];
    assert WithoutAdvisories([Encoded(address)]) == [Encoded(address)];
  }

  /** In the effects of one allocation the advisory, if any, comes once and before the write. */
  lemma AllocationOrder(n: string, next: Wallet, saveSucceeds: bool, address: string)
    ensures var advisory := if next.nextAddress > AdvisoryThreshold then [Advisory(next.nextAddress)] else [];
            var saved := [Open(n)] + advisory + [Save(n, next, saveSucceeds)];
            && AdvisoryOnceBeforeSave(saved)
            && AdvisoryOnceBeforeSave(saved + [Encoded(address)])
  {
    var save := Save(n, next, saveSucceeds);
    if next.nextAddress > AdvisoryThreshold {
      assert [Open(n)] + [Advisory(next.nextAddress)] + [save] == [Open(n), Advisory(next.nextAddress), save];
      assert [Open(n), Advisory(next.nextAddress), save] + [Encoded(address)] == [Open(n), Advisory(next.nextAddress), save, Encoded(address)];
    } else {
      assert [Open(n)] + [] + [save] == [Open(n), save];
      assert [Open(n), save] + [Encoded(address)] == [Open(n), save, Encoded(address)];
    }
  }

  /**
    The wallet files after a call: unchanged when the name is rejected, the
    wallet is missing or the write fails; otherwise only the wallet's own file
    changes, and only by its counter advancing by one.
   */
  lemma AllocationPersistsAtomically<S, N>(name: Option<string>, bitbox: Bitbox<S, N>, wallets: map<string, Wallet>, saveSucceeds: bool)
    ensures var run := GetAddress(name, bitbox, wallets, saveSucceeds);
            && (run.result.Failure? ==> Persist(wallets, run.events) == wallets)
            && (run.result.Success? ==>
                  var w := wallets[name.value];
                  Persist(wallets, run.events) == wallets[name.value := w.(nextAddress := w.nextAddress + 1)])
  {
    var run := GetAddress(name, bitbox, wallets, saveSucceeds);
    if !NameMissing(name) && name.value in wallets {
      var n := name.value;
      var w := wallets[n];
      var next := w.(nextAddress := w.nextAddress + 1);
      var advisory := if next.nextAddress > AdvisoryThreshold then [Advisory(next.nextAddress)] else [];
      var before := [Open(n)] + advisory;
      var save := Save(n, next, saveSucceeds);
      assert NoWrites(before);
      PersistWithoutWrites(wallets, before);
      PersistAppend(wallets, before, [save]);
      assert [save][1..] == [];
      var written := Persist(wallets, before + [save]);
      if saveSucceeds {
        var encoded := [Encoded(run.result.value)];
        assert run.events == (before + [save]) + encoded;
        PersistAppend(wallets, before + [save], encoded);
        PersistWithoutWrites(written, encoded);
      } else {
        assert run.events == before + [save];
      }
    }
  }

  /**
    The REST endpoint, which the command picks from its own `testnet` flag,
    plays no part in issuing an address: only the wallet's network field
    selects the master node.
   */
  lemma GetAddressIgnoresRestUrl<S, N>(name: Option<string>, lib: Library<S, N>, wallets: map<string, Wallet>, saveSucceeds: bool)
    ensures GetAddress(name, NewBitbox(true, lib), wallets, saveSucceeds)
         == GetAddress(name, NewBitbox(false, lib), wallets, saveSucceeds)
  {
  }

  /** A session of calls: the addresses returned so far, in order, and the wallet files as they now are. */
  datatype Session = Session(addresses: seq<string>, files: map<string, Wallet>)

  /**
    What `count` successive calls for wallet `name` leave behind: the counter
    advanced by `count` (nothing else of the wallet changed), and the addresses
    of indices nextAddress, nextAddress + 1, … returned in order.
   */
  predicate IsSession<S, N>(r: Session, name: string, bitbox: Bitbox<S, N>, wallets: map<string, Wallet>, count: nat)
    requires name in wallets
  {
    && name in r.files
    && r.files[name] == wallets[name].(nextAddress := wallets[name].nextAddress + count)
    && |r.addresses| == count
    && Consecutive(r.addresses, bitbox.lib, wallets[name], wallets[name].nextAddress)
  }

  /** `addresses` are the addresses of `w` at indices `start`, `start + 1`, … in order. */
  predicate Consecutive<S, N>(addresses: seq<string>, lib: Library<S, N>, w: Wallet, start: nat) {
    forall i | 0 <= i < |addresses| :: addresses[i] == GenerateAddress(lib, w, start + i)
  }

  /** One more call for wallet `name`, reading the files of `prev`, whose write succeeds. */
  function NextCall<S, N>(prev: Session, name: string, bitbox: Bitbox<S, N>)
    : (r: Session)
    requires name != "" && name in prev.files
    ensures |r.addresses| == |prev.addresses| + 1
  {
    var run := GetAddress(Some(name), bitbox, prev.files, true);
    Session(prev.addresses + [run.result.value], Persist(prev.files, run.events))
  }

  /**
    `count` successive calls for wallet `name`, each reading the files the
    previous call wrote (every write succeeding): the addresses returned, in
    order, and the files afterwards.
   */
  function IssueAddresses<S, N>(name: string, bitbox: Bitbox<S, N>, wallets: map<string, Wallet>, count: nat)
    : (r: Session)
    requires name != "" && name in wallets
    ensures IsSession(r, name, bitbox, wallets, count)
    decreases count
  {
    if count == 0 then Session([], wallets)
    else
      var prev := IssueAddresses(name, bitbox, wallets, count - 1);
      SessionStep(prev, name, bitbox, wallets, count);
      NextCall(prev, name, bitbox)
  }

  /** One more call extends a session of `count - 1` calls to one of `count` calls. */
  lemma SessionStep<S, N>(prev: Session, name: string, bitbox: Bitbox<S, N>, wallets: map<string, Wallet>, count: nat)
    requires name != "" && name in wallets && count > 0
    requires IsSession(prev, name, bitbox, wallets, count - 1)
    ensures IsSession(NextCall(prev, name, bitbox), name, bitbox, wallets, count)
  {
    NextIssue(prev, name, bitbox, wallets, count - 1);
    IssuedInOrder(prev.addresses, GenerateAddress(bitbox.lib, wallets[name], wallets[name].nextAddress + count - 1), bitbox.lib, wallets[name], wallets[name].nextAddress);
  }

  /** Appending the address of the next index keeps a list of consecutive addresses consecutive. */
  lemma IssuedInOrder<S, N>(addresses: seq<string>, address: string, lib: Library<S, N>, w: Wallet, start: nat)
    requires Consecutive(addresses, lib, w, start)
    requires address == GenerateAddress(lib, w, start + |addresses|)
    ensures Consecutive(addresses + [address], lib, w, start)
  {
    assert forall i | 0 <= i < |addresses| :: (addresses + [address])[i] == addresses[i];
  }

  /**
    One more call in a session that has already issued `k` addresses: it
    returns the address at the next index and advances the counter once more.
   */
  lemma NextIssue<S, N>(prev: Session, name: string, bitbox: Bitbox<S, N>, wallets: map<string, Wallet>, k: nat)
    requires name != "" && name in wallets && name in prev.files
    requires prev.files[name] == wallets[name].(nextAddress := wallets[name].nextAddress + k)
    ensures var next := NextCall(prev, name, bitbox);
            && next.addresses == prev.addresses + [GenerateAddress(bitbox.lib, wallets[name], wallets[name].nextAddress + k)]
            && name in next.files
            && next.files[name] == wallets[name].(nextAddress := wallets[name].nextAddress + k + 1)
  {
    var files := prev.files;
    AllocationPersistsAtomically(Some(name), bitbox, files, true);
    AddressDependsOnSeedMaterialOnly(bitbox.lib, files[name], wallets[name], wallets[name].nextAddress + k);
  }

  /** From a fresh wallet, the `i`-th call returns the address at index `i` of the wallet as written. */
  lemma FreshSession<S, N>(name: string, bitbox: Bitbox<S, N>, wallets: map<string, Wallet>, count: nat)
    requires name != "" && name in wallets && wallets[name].nextAddress == 0
    ensures var Session(addresses, files) := IssueAddresses(name, bitbox, wallets, count);
            && files[name].nextAddress == count
            && forall i | 0 <= i < count :: addresses[i] == GenerateAddress(bitbox.lib, files[name], i)
  {
    var Session(addresses, files) := IssueAddresses(name, bitbox, wallets, count);
    forall i | 0 <= i < count ensures addresses[i] == GenerateAddress(bitbox.lib, files[name], i) {
      AddressDependsOnSeedMaterialOnly(bitbox.lib, files[name], wallets[name], i);
    }
  }

  /**
    From a fresh wallet, `count` calls return the addresses of indices
    0 .. count - 1 in order and leave the counter at `count`; a later refresh
    of the written wallet (through any endpoint, with the same library) queries
    exactly those addresses, in the same order.
   */
  lemma IssuedAddressesAreReconciled<S, N>(name: string, bitbox: Bitbox<S, N>, restUrl: string, wallets: map<string, Wallet>, count: nat)
    requires name != "" && name in wallets && wallets[name].nextAddress == 0
    ensures var Session(addresses, files) := IssueAddresses(name, bitbox, wallets, count);
            var reconciler := Bitbox(restUrl, bitbox.lib);
            var walk := BalanceReconciler.GetAddressData(files[name], reconciler);
            && files[name].nextAddress == count
            && (forall i | 0 <= i < count :: addresses[i] == GenerateAddress(bitbox.lib, files[name], i))
            && (forall i | 0 <= i < |walk.events| :: walk.events[i] == Query(restUrl, addresses[i]))
            && (walk.result.Success? ==> |walk.events| == count)
  {
    FreshSession(name, bitbox, wallets, count);
  }
}
