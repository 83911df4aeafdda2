/**
  The update-balances command: re-derive every address the wallet has issued,
  ask the balance service about each in index order, keep the ones holding
  funds, and write the refreshed wallet back.
 */
module BalanceReconciler {
  import opened Wrappers
  import opened WalletModel

  /** The `name` flag must be present and non-empty. */
  function ValidateFlags(name: Option<string>): (r: Result<bool, Error>)
    ensures r.Success? <==> name.Some? && |name.value| > 0
    ensures r.Success? ==> r.value
    ensures r.Failure? ==> r.error == MissingName && Message(r.error) == Some("You must specify a wallet with the -n flag.")
  {
    if NameMissing(name) then Failure(MissingName) else Success(true)
  }

  /** The BITBOX instance the command builds: its endpoint follows the wallet's own network field. */
  function ReconcilerBitbox<S, N>(w: Wallet, lib: Library<S, N>): Bitbox<S, N> {
    NewBitbox(w.network == "testnet", lib)
  }

  /**
    The command takes the REST endpoint and the master node's network from the
    same field: balances are queried at the testnet endpoint exactly when the
    addresses are derived from a testnet master node.
   */
  lemma EndpointMatchesMasterNetwork<S, N>(w: Wallet, lib: Library<S, N>, index: nat)
    ensures ReconcilerBitbox(w, lib).restUrl == TestnetRestUrl <==> PlanDerivation(w, index).network == Testnet
    ensures ReconcilerBitbox(w, lib).restUrl == MainnetRestUrl <==> PlanDerivation(w, index).network == Mainnet
  {
    assert TestnetRestUrl[8] != MainnetRestUrl[8];
  }

  /** What the balance service answers for address `i` of `w`. */
  function Answer<S, N>(bitbox: Bitbox<S, N>, w: Wallet, i: nat): Result<AddressDetails, string> {
    bitbox.lib.details(bitbox.restUrl, GenerateAddress(bitbox.lib, w, i))
  }

  /** Every address below `count` gets an answer. */
  predicate AllAnswered<S, N>(bitbox: Bitbox<S, N>, w: Wallet, count: nat) {
    forall i | 0 <= i < count :: Answer(bitbox, w, i).Success?
  }

  /** Address `k` is the first whose query fails. */
  predicate FirstFailure<S, N>(bitbox: Bitbox<S, N>, w: Wallet, k: nat) {
    Answer(bitbox, w, k).Failure? && AllAnswered(bitbox, w, k)
  }

  /** There is at most one first failure, so naming it fixes where a failing walk stops. */
  lemma FirstFailureIsUnique<S, N>(bitbox: Bitbox<S, N>, w: Wallet, k1: nat, k2: nat)
    requires FirstFailure(bitbox, w, k1) && FirstFailure(bitbox, w, k2)
    ensures k1 == k2
  {
  }

  /**
    What a walk over the first `count` addresses of `w` must look like: one
    query per index in index order; success exactly when every address
    answers, with one record per index tagged with that index; otherwise a stop
    right after the first failing query, with that query's error.
   */
  predicate IsWalk<S, N>(run: Run<seq<AddressEntry>>, w: Wallet, bitbox: Bitbox<S, N>, count: nat) {
    && |run.events| <= count
    && (forall i | 0 <= i < |run.events| :: run.events[i] == Query(bitbox.restUrl, GenerateAddress(bitbox.lib, w, i)))
    && (run.result.Success? <==> AllAnswered(bitbox, w, count))
    && (run.result.Success? ==>
          && |run.events| == count
          && |run.result.value| == count
          && forall i | 0 <= i < count :: run.result.value[i] == AddressEntry(Answer(bitbox, w, i).value, i))
    && (run.result.Failure? ==>
          && |run.events| > 0
          && FirstFailure(bitbox, w, |run.events| - 1)
          && run.result.error == ProviderFailed(Answer(bitbox, w, |run.events| - 1).error))
  }

  /** One more query of a walk: nothing happens once a query has failed. */
  function Extend(prev: Run<seq<AddressEntry>>, restUrl: string, address: string, answer: Result<AddressDetails, string>, i: nat)
    : Run<seq<AddressEntry>>
  {
    if prev.result.Failure? then prev
    else
      var events := prev.events + [Query(restUrl, address)];
      match answer
      case Failure(reason) => Run(Failure(ProviderFailed(reason)), events)
      case Success(d) => Run(Success(prev.result.value + [AddressEntry(d, i)]), events)
  }

  /** Extending a walk over `count - 1` addresses by the query for address `count - 1` gives a walk over `count`. */
  lemma WalkStep<S, N>(prev: Run<seq<AddressEntry>>, w: Wallet, bitbox: Bitbox<S, N>, count: nat)
    requires count > 0 && IsWalk(prev, w, bitbox, count - 1)
    ensures IsWalk(Extend(prev, bitbox.restUrl, GenerateAddress(bitbox.lib, w, count - 1), Answer(bitbox, w, count - 1), count - 1),
                   w, bitbox, count)
  {
    if prev.result.Failure? {
      StoppedWalkStaysStopped(prev, w, bitbox, count);
    } else if Answer(bitbox, w, count - 1).Failure? {
      WalkStopsAtFailure(prev, w, bitbox, count);
    } else {
      WalkGrows(prev, w, bitbox, count);
    }
  }

  lemma StoppedWalkStaysStopped<S, N>(prev: Run<seq<AddressEntry>>, w: Wallet, bitbox: Bitbox<S, N>, count: nat)
    requires count > 0 && IsWalk(prev, w, bitbox, count - 1) && prev.result.Failure?
    ensures IsWalk(prev, w, bitbox, count)
  {
    assert Answer(bitbox, w, |prev.events| - 1).Failure?;
  }

  lemma WalkStopsAtFailure<S, N>(prev: Run<seq<AddressEntry>>, w: Wallet, bitbox: Bitbox<S, N>, count: nat)
    requires count > 0 && IsWalk(prev, w, bitbox, count - 1) && prev.result.Success?
    requires Answer(bitbox, w, count - 1).Failure?
    ensures IsWalk(Extend(prev, bitbox.restUrl, GenerateAddress(bitbox.lib, w, count - 1), Answer(bitbox, w, count - 1), count - 1),
                   w, bitbox, count)
  {
    var i := count - 1;
    var run := Extend(prev, bitbox.restUrl, GenerateAddress(bitbox.lib, w, i), Answer(bitbox, w, i), i);
    assert AllAnswered(bitbox, w, i);
    assert forall j | 0 <= j < |prev.events| :: run.events[j] == prev.events[j];
    assert FirstFailure(bitbox, w, i);
  }

  lemma WalkGrows<S, N>(prev: Run<seq<AddressEntry>>, w: Wallet, bitbox: Bitbox<S, N>, count: nat)
    requires count > 0 && IsWalk(prev, w, bitbox, count - 1) && prev.result.Success?
    requires Answer(bitbox, w, count - 1).Success?
    ensures IsWalk(Extend(prev, bitbox.restUrl, GenerateAddress(bitbox.lib, w, count - 1), Answer(bitbox, w, count - 1), count - 1),
                   w, bitbox, count)
  {
    var i := count - 1;
    var run := Extend(prev, bitbox.restUrl, GenerateAddress(bitbox.lib, w, i), Answer(bitbox, w, i), i);
    assert forall j | 0 <= j < |prev.events| :: run.events[j] == prev.events[j];
    assert forall j | 0 <= j < i :: run.result.value[j] == prev.result.value[j];
  }

  /** The queries for the first `count` addresses, one at a time in index order, stopping at the first failure. */
  function QueryAddresses<S, N>(w: Wallet, bitbox: Bitbox<S, N>, count: nat): (run: Run<seq<AddressEntry>>)
    ensures IsWalk(run, w, bitbox, count)
    decreases count
  {
    if count == 0 then Run(Success([]), [])
    else
      var prev := QueryAddresses(w, bitbox, count - 1);
      WalkStep(prev, w, bitbox, count);
      Extend(prev, bitbox.restUrl, GenerateAddress(bitbox.lib, w, count - 1), Answer(bitbox, w, count - 1), count - 1)
  }

  /**
    The records of every issued address, indices 0 .. nextAddress - 1, each
    tagged with its index; the first failing query aborts the walk.
   */
  function GetAddressData<S, N>(w: Wallet, bitbox: Bitbox<S, N>): (run: Run<seq<AddressEntry>>)
    ensures forall i | 0 <= i < |run.events| :: run.events[i] == Query(bitbox.restUrl, GenerateAddress(bitbox.lib, w, i))
    ensures run.result.Success? <==> AllAnswered(bitbox, w, w.nextAddress)
    ensures run.result.Success? ==>
              && |run.events| == w.nextAddress
              && |run.result.value| == w.nextAddress
              && forall i | 0 <= i < w.nextAddress ::
                   run.result.value[i].addressIndex == i && run.result.value[i].details == Answer(bitbox, w, i).value
    ensures run.result.Failure? ==>
              && 0 < |run.events| <= w.nextAddress
              && FirstFailure(bitbox, w, |run.events| - 1)
              && run.result.error == ProviderFailed(Answer(bitbox, w, |run.events| - 1).error)
  {
    QueryAddresses(w, bitbox, w.nextAddress)
  }

  /** An address holds funds when its confirmed or its unconfirmed balance is positive. */
  predicate HasFunds(d: AddressDetails) {
    d.balance > 0.0 || d.unconfirmedBalance > 0.0
  }

  /** The `hasBalance` element for the record at position `index`. */
  function Summary(d: AddressDetails, index: nat): HasBalanceEntry {
    HasBalanceEntry(index, d.balance, d.balanceSat, d.unconfirmedBalance, d.unconfirmedBalanceSat, d.cashAddress)
  }

  function Indices(entries: seq<HasBalanceEntry>): set<nat> {
    set k | 0 <= k < |entries| :: entries[k].index
  }

  predicate StrictlyIncreasing(entries: seq<HasBalanceEntry>) {
    forall k, l | 0 <= k < l < |entries| :: entries[k].index < entries[l].index
  }

  lemma IndicesAppend(entries: seq<HasBalanceEntry>, e: HasBalanceEntry)
    ensures Indices(entries + [e]) == Indices(entries) + {e.index}
  {
    var all := entries + [e];
    assert all[|entries|] == e;
    forall x | x in Indices(entries) ensures x in Indices(all) {
      var k :| 0 <= k < |entries| && entries[k].index == x;
      assert all[k] == entries[k];
    }
  }

  /**
    The `hasBalance` list of an address-data list: one summary per position
    that holds funds, in position order.
   */
  function GenerateHasBalance(data: seq<AddressEntry>): (r: seq<HasBalanceEntry>)
    ensures |r| <= |data|
    ensures StrictlyIncreasing(r)
    ensures forall k | 0 <= k < |r| ::
              && r[k].index < |data|
              && HasFunds(data[r[k].index].details)
              && r[k] == Summary(data[r[k].index].details, r[k].index)
    ensures forall i | 0 <= i < |data| :: HasFunds(data[i].details) <==> i in Indices(r)
    decreases |data|
  {
    if |data| == 0 then []
    else
      var last := |data| - 1;
      var prev := GenerateHasBalance(data[..last]);
      if HasFunds(data[last].details) then
        IndicesAppend(prev, Summary(data[last].details, last));
        prev + [Summary(data[last].details, last)]
      else prev
  }

  /** What a refreshed record `r` of wallet `w` must be, given the service's answers and the summation used. */
  predicate IsRefreshOf<S, N>(w: Wallet, bitbox: Bitbox<S, N>, sumConfirmed: seq<HasBalanceEntry> -> real, r: Wallet) {
    && r.(balance := w.balance, hasBalance := w.hasBalance) == w
    && r.balance == sumConfirmed(r.hasBalance)
    && StrictlyIncreasing(r.hasBalance)
    && (forall k | 0 <= k < |r.hasBalance| ::
          var i := r.hasBalance[k].index;
          && i < w.nextAddress
          && Answer(bitbox, w, i).Success?
          && HasFunds(Answer(bitbox, w, i).value)
          && r.hasBalance[k] == Summary(Answer(bitbox, w, i).value, i))
    && (forall i | 0 <= i < w.nextAddress && Answer(bitbox, w, i).Success? && HasFunds(Answer(bitbox, w, i).value) ::
          i in Indices(r.hasBalance))
  }

  /**
    Refreshes the wallet: all balances are re-queried, `hasBalance` and
    `balance` are recomputed from the answers alone and the record is written
    under the wallet's name. `sumConfirmed` is the command's floating-point
    total of the confirmed balances; `saveSucceeds` is whether the write works.
   */
  function UpdateBalances<S, N>(w: Wallet, bitbox: Bitbox<S, N>, sumConfirmed: seq<HasBalanceEntry> -> real, saveSucceeds: bool)
    : (run: Run<Wallet>)
    ensures !AllAnswered(bitbox, w, w.nextAddress) ==>
              && 0 < |run.events| <= w.nextAddress
              && (forall i | 0 <= i < |run.events| :: run.events[i] == Query(bitbox.restUrl, GenerateAddress(bitbox.lib, w, i)))
              && NoWrites(run.events)
              && FirstFailure(bitbox, w, |run.events| - 1)
              && run.result == Failure(ProviderFailed(Answer(bitbox, w, |run.events| - 1).error))
    ensures AllAnswered(bitbox, w, w.nextAddress) ==>
              && |run.events| == w.nextAddress + 1
              && (forall i | 0 <= i < w.nextAddress :: run.events[i] == Query(bitbox.restUrl, GenerateAddress(bitbox.lib, w, i)))
              && run.events[w.nextAddress].Save?
              && run.events[w.nextAddress].name == w.name
              && run.events[w.nextAddress].written == saveSucceeds
              && IsRefreshOf(w, bitbox, sumConfirmed, run.events[w.nextAddress].record)
    ensures run.result.Success? <==> AllAnswered(bitbox, w, w.nextAddress) && saveSucceeds
    ensures run.result.Success? ==> run.result.value == run.events[|run.events| - 1].record
    ensures run.result.Failure? && run.result.error.SaveFailed? ==> run.result.error.name == w.name
  {
    var data := GetAddressData(w, bitbox);
    match data.result
    case Failure(e) =>
      assert !AllAnswered(bitbox, w, w.nextAddress);
      assert NoWrites(data.events);
      Run(Failure(e), data.events)
    case Success(entries) =>
      var hasBalance := GenerateHasBalance(entries);
      var refreshed := w.(balance := sumConfirmed(hasBalance), hasBalance := hasBalance);
      assert AllAnswered(bitbox, w, w.nextAddress);
      HasBalanceRefreshes(w, bitbox, sumConfirmed);
      var events := data.events + [Save(w.name, refreshed, saveSucceeds)];
      assert forall i | 0 <= i < |data.events| :: events[i] == data.events[i];
      Run(if saveSucceeds then Success(refreshed) else Failure(SaveFailed(w.name)), events)
  }

  /** The record the command writes meets the refresh contract. */
  lemma HasBalanceRefreshes<S, N>(w: Wallet, bitbox: Bitbox<S, N>, sumConfirmed: seq<HasBalanceEntry> -> real)
    requires GetAddressData(w, bitbox).result.Success?
    ensures var h := GenerateHasBalance(GetAddressData(w, bitbox).result.value);
            IsRefreshOf(w, bitbox, sumConfirmed, w.(balance := sumConfirmed(h), hasBalance := h))
  {
    var data := GetAddressData(w, bitbox).result.value;
    var h := GenerateHasBalance(data);
    var r := w.(balance := sumConfirmed(h), hasBalance := h);
    assert r.(balance := w.balance, hasBalance := w.hasBalance) == w;
    forall k | 0 <= k < |h|
      ensures h[k].index < w.nextAddress
      ensures Answer(bitbox, w, h[k].index).Success? && HasFunds(Answer(bitbox, w, h[k].index).value)
      ensures h[k] == Summary(Answer(bitbox, w, h[k].index).value, h[k].index)
    {
      assert data[h[k].index].details == Answer(bitbox, w, h[k].index).value;
    }
    forall i | 0 <= i < w.nextAddress && Answer(bitbox, w, i).Success? && HasFunds(Answer(bitbox, w, i).value)
      ensures i in Indices(h)
    {
      assert data[i].details == Answer(bitbox, w, i).value;
    }
  }

  /** Every event is a balance query at `restUrl` or a write of a record named `name` under `name`. */
  predicate RefreshTrace(events: seq<Event>, name: string, restUrl: string) {
    forall i | 0 <= i < |events| ::
      && (events[i].Query? || events[i].Save?)
      && (events[i].Query? ==> events[i].restUrl == restUrl)
      && (events[i].Save? ==> events[i].name == name && events[i].record.name == name)
  }

  /** A refresh only queries the instance's endpoint and writes the wallet under its own name. */
  lemma RefreshEvents<S, N>(w: Wallet, bitbox: Bitbox<S, N>, sumConfirmed: seq<HasBalanceEntry> -> real, saveSucceeds: bool)
    ensures var run := UpdateBalances(w, bitbox, sumConfirmed, saveSucceeds);
            && RefreshTrace(run.events, w.name, bitbox.restUrl)
            && (run.result.Success? ==> |run.events| > 0 && run.events[|run.events| - 1] == Save(w.name, run.result.value, true))
  {
    var run := UpdateBalances(w, bitbox, sumConfirmed, saveSucceeds);
    if AllAnswered(bitbox, w, w.nextAddress) {
      var r := run.events[w.nextAddress].record;
      assert r.(balance := w.balance, hasBalance := w.hasBalance).name == r.name;
    }
  }

  /**
    The command as run: validate the name flag, open the wallet file, set the
    record's `name` to the flag, pick the endpoint from the record's network
    and refresh. The file is written under the flag's name, whatever name the
    file itself holds.
   */
  function RefreshWallet<S, N>(
    name: Option<string>, lib: Library<S, N>, wallets: map<string, Wallet>,
    sumConfirmed: seq<HasBalanceEntry> -> real, saveSucceeds: bool)
    : (run: Run<Wallet>)
    ensures NameMissing(name) ==> run == Run(Failure(MissingName), [])
    ensures !NameMissing(name) && name.value !in wallets ==> run == Run(Failure(CannotOpen(name.value)), [Open(name.value)])
    ensures !NameMissing(name) && name.value in wallets ==>
              && |run.events| > 0 && run.events[0] == Open(name.value)
              && RefreshTrace(run.events[1..], name.value,
                              if wallets[name.value].network == "testnet" then TestnetRestUrl else MainnetRestUrl)
    ensures run.result.Success? ==>
              && run.result.value.name == name.value
              && run.events[|run.events| - 1] == Save(name.value, run.result.value, true)
    ensures run.result.Success? ==>
              && !NameMissing(name) && name.value in wallets
              && var w := wallets[name.value].(name := name.value);
                 IsRefreshOf(w, ReconcilerBitbox(w, lib), sumConfirmed, run.result.value)
  {
    if NameMissing(name) then Run(Failure(MissingName), [])
    else if name.value !in wallets then Run(Failure(CannotOpen(name.value)), [Open(name.value)])
    else
      var n := name.value;
      var w := wallets[n].(name := n);
      var bitbox := ReconcilerBitbox(w, lib);
      var run := UpdateBalances(w, bitbox, sumConfirmed, saveSucceeds);
      RefreshEvents(w, bitbox, sumConfirmed, saveSucceeds);
      var events := [Open(n)] + run.events;
      assert events[1..] == run.events;
      assert run.result.Success? ==> events[|events| - 1] == run.events[|run.events| - 1];
      Run(run.result, events)
  }

  /**
    Composed with the address-data walk, each `hasBalance` index is the
    derivation index the record was queried for, below the wallet's counter,
    and the address stored is the one the service reported for that index.
   */
  lemma HasBalanceIndexIsAddressIndex<S, N>(w: Wallet, bitbox: Bitbox<S, N>)
    requires GetAddressData(w, bitbox).result.Success?
    ensures var data := GetAddressData(w, bitbox).result.value;
            forall e | e in GenerateHasBalance(data) ::
              && e.index < w.nextAddress
              && data[e.index].addressIndex == e.index
              && e.cashAddress == Answer(bitbox, w, e.index).value.cashAddress
  {
    var data := GetAddressData(w, bitbox).result.value;
    var r := GenerateHasBalance(data);
    forall e | e in r
      ensures e.index < w.nextAddress
      ensures data[e.index].addressIndex == e.index
      ensures e.cashAddress == Answer(bitbox, w, e.index).value.cashAddress
    {
      var k :| 0 <= k < |r| && r[k] == e;
    }
  }

  /** The walk depends on the wallet only through its mnemonic and network. */
  lemma QueryDependsOnSeedMaterialOnly<S, N>(w1: Wallet, w2: Wallet, bitbox: Bitbox<S, N>, count: nat)
    requires w1.mnemonic == w2.mnemonic && w1.network == w2.network
    ensures QueryAddresses(w1, bitbox, count) == QueryAddresses(w2, bitbox, count)
  {
    var r1, r2 := QueryAddresses(w1, bitbox, count), QueryAddresses(w2, bitbox, count);
    forall i | 0 <= i
      ensures GenerateAddress(bitbox.lib, w1, i) == GenerateAddress(bitbox.lib, w2, i)
      ensures Answer(bitbox, w1, i) == Answer(bitbox, w2, i)
    {
      AddressDependsOnSeedMaterialOnly(bitbox.lib, w1, w2, i);
    }
    if r1.result.Failure? {
      FirstFailureIsUnique(bitbox, w1, |r1.events| - 1, |r2.events| - 1);
    }
    assert r1.events == r2.events;
    if r1.result.Success? {
      assert r1.result.value == r2.result.value;
    }
  }

  /**
    `hasBalance` and `balance` are replaced wholesale: whatever the wallet held
    before has no influence on the queries, the record written or the result.
   */
  lemma RefreshIgnoresPreviousBalances<S, N>(
    w: Wallet, bitbox: Bitbox<S, N>, sumConfirmed: seq<HasBalanceEntry> -> real, saveSucceeds: bool,
    oldBalance: real, oldHasBalance: seq<HasBalanceEntry>)
    ensures UpdateBalances(w.(balance := oldBalance, hasBalance := oldHasBalance), bitbox, sumConfirmed, saveSucceeds)
         == UpdateBalances(w, bitbox, sumConfirmed, saveSucceeds)
  {
    var w' := w.(balance := oldBalance, hasBalance := oldHasBalance);
    QueryDependsOnSeedMaterialOnly(w', w, bitbox, w.nextAddress);
  }

  lemma IndicesEmpty(entries: seq<HasBalanceEntry>)
    ensures Indices(entries) == {} <==> |entries| == 0
  {
    if |entries| > 0 {
      assert entries[0].index in Indices(entries);
    }
  }

  /** Dropping the last element of a strictly increasing list removes exactly its index. */
  lemma IndicesDropLast(a: seq<HasBalanceEntry>)
    requires StrictlyIncreasing(a) && |a| > 0
    ensures StrictlyIncreasing(a[..|a| - 1])
    ensures Indices(a[..|a| - 1]) == Indices(a) - {a[|a| - 1].index}
  {
    var a', x := a[..|a| - 1], a[|a| - 1];
    assert a == a' + [x];
    IndicesAppend(a', x);
    assert x.index !in Indices(a') by {
      forall k | 0 <= k < |a'| ensures a'[k].index != x.index {
        assert a'[k] == a[k];
      }
    }
  }

  /** Two strictly increasing lists with the same set of indices have the same indices position by position. */
  lemma {:induction false} IncreasingIndicesDetermined(a: seq<HasBalanceEntry>, b: seq<HasBalanceEntry>)
    requires StrictlyIncreasing(a) && StrictlyIncreasing(b) && Indices(a) == Indices(b)
    ensures |a| == |b|
    ensures forall k | 0 <= k < |a| :: a[k].index == b[k].index
    decreases |a| + |b|
  {
    IndicesEmpty(a);
    IndicesEmpty(b);
    if |a| > 0 && |b| > 0 {
      var x, y := a[|a| - 1].index, b[|b| - 1].index;
      assert x in Indices(a);
      assert y in Indices(b);
      var kb :| 0 <= kb < |b| && b[kb].index == x;
      var ka :| 0 <= ka < |a| && a[ka].index == y;
      assert x == y;
      var a', b' := a[..|a| - 1], b[..|b| - 1];
      IndicesDropLast(a);
      IndicesDropLast(b);
      IncreasingIndicesDetermined(a', b');
    }
  }

  /** The refresh contract leaves no freedom: at most one record satisfies it. */
  lemma RefreshIsUnique<S, N>(w: Wallet, bitbox: Bitbox<S, N>, sumConfirmed: seq<HasBalanceEntry> -> real, r1: Wallet, r2: Wallet)
    requires IsRefreshOf(w, bitbox, sumConfirmed, r1)
    requires IsRefreshOf(w, bitbox, sumConfirmed, r2)
    ensures r1 == r2
  {
    var h1, h2 := r1.hasBalance, r2.hasBalance;
    assert Indices(h1) == Indices(h2) by {
      forall x | x in Indices(h1) ensures x in Indices(h2) {
        var k :| 0 <= k < |h1| && h1[k].index == x;
      }
      forall x | x in Indices(h2) ensures x in Indices(h1) {
        var k :| 0 <= k < |h2| && h2[k].index == x;
      }
    }
    IncreasingIndicesDetermined(h1, h2);
    assert h1 == h2;
    assert r1 == r1.(balance := w.balance, hasBalance := w.hasBalance).(balance := r1.balance, hasBalance := h1);
  }

  /**
    Writes are all-or-nothing: a refresh that fails leaves every wallet file
    as it was, and a successful one replaces exactly the wallet's own file with
    the record it returns.
   */
  lemma RefreshPersistsAtomically<S, N>(
    w: Wallet, bitbox: Bitbox<S, N>, sumConfirmed: seq<HasBalanceEntry> -> real, saveSucceeds: bool,
    files: map<string, Wallet>)
    ensures var run := UpdateBalances(w, bitbox, sumConfirmed, saveSucceeds);
            && (run.result.Failure? ==> Persist(files, run.events) == files)
            && (run.result.Success? ==> Persist(files, run.events) == files[w.name := run.result.value])
  {
    var run := UpdateBalances(w, bitbox, sumConfirmed, saveSucceeds);
    var data := GetAddressData(w, bitbox);
    assert NoWrites(data.events);
    PersistWithoutWrites(files, data.events);
    if data.result.Failure? {
      assert run.events == data.events;
    } else {
      var save := run.events[|run.events| - 1];
      assert run.events == data.events + [save];
      PersistAppend(files, data.events, [save]);
      assert [save][1..] == [];
    }
  }
}
