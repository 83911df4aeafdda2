/**
  The wallet record both commands read and write, the BITBOX library they
  delegate to (as function values: seed, key derivation, address encoding and
  the balance service are not modelled), and the trace of effects a command
  run leaves behind.
 */
module WalletModel {
  import opened Wrappers
  import HdPath

  /** The network a master node is derived for. */
  datatype HdNetwork = Mainnet | Testnet

  /** One element of the wallet's `hasBalance` list. */
  datatype HasBalanceEntry = HasBalanceEntry(
    index: nat,
    balance: real,
    balanceSat: int,
    unconfirmedBalance: real,
    unconfirmedBalanceSat: int,
    cashAddress: string)

  /**
    The wallet file. `network` is kept as the string found in the file: only
    the exact value "testnet" selects testnet. `otherFields` stands for any
    further field of the file, which both commands carry through untouched.
   */
  datatype Wallet = Wallet(
    name: string,
    network: string,
    mnemonic: string,
    nextAddress: nat,
    balance: real,
    hasBalance: seq<HasBalanceEntry>,
    otherFields: map<string, string>)

  /** What the balance service reports for one address (the fields the wallet reads, plus the rest). */
  datatype AddressDetails = AddressDetails(
    balance: real,
    balanceSat: int,
    unconfirmedBalance: real,
    unconfirmedBalanceSat: int,
    cashAddress: string,
    otherFields: map<string, string>)

  /** A balance-service record tagged with the derivation index it was queried for. */
  datatype AddressEntry = AddressEntry(details: AddressDetails, addressIndex: nat)

  /**
    The BITBOX library, with seeds of type S and HD nodes of type N. `details`
    takes the REST endpoint and an address and either answers or fails.
   */
  datatype Library<!S, !N> = Library(
    toSeed: string -> S,
    fromSeed: (S, HdNetwork) -> N,
    derivePath: (N, string) -> N,
    toCashAddress: N -> string,
    details: (string, string) -> Result<AddressDetails, string>)

  /** A BITBOX instance: the library bound to one REST endpoint. */
  datatype Bitbox<!S, !N> = Bitbox(restUrl: string, lib: Library<S, N>)

  const MainnetRestUrl: string := "https://rest.bitcoin.com/v1/"
  const TestnetRestUrl: string := "https://trest.bitcoin.com/v1/"

  function NewBitbox<S, N>(testnet: bool, lib: Library<S, N>): Bitbox<S, N> {
    Bitbox(if testnet then TestnetRestUrl else MainnetRestUrl, lib)
  }

  /** Errors a command run can end with. */
  datatype Error =
    | MissingName
    | CannotOpen(name: string)
    | ProviderFailed(reason: string)
    | SaveFailed(name: string)

  /** The message an error carries; a failed write rejects without one. */
  function Message(e: Error): Option<string> {
    match e
    case MissingName => Some("You must specify a wallet with the -n flag.")
    case CannotOpen(name) => Some("Could not open " + name + ".json")
    case ProviderFailed(reason) => Some(reason)
    case SaveFailed(_) => None
  }

  /**
    Observable effects, in the order they happen: opening a wallet file, one
    balance-service query, the consolidation advisory, writing a wallet file
    (`written` is whether the write succeeded), encoding the returned address.
   */
  datatype Event =
    | Open(name: string)
    | Query(restUrl: string, address: string)
    | Advisory(nextAddress: nat)
    | Save(name: string, record: Wallet, written: bool)
    | Encoded(address: string)

  /** The outcome of a command together with the effects it had. */
  datatype Run<T> = Run(result: Result<T, Error>, events: seq<Event>)

  /** The wallet files after a trace: each successful write replaces the file of that name. */
  function Persist(files: map<string, Wallet>, events: seq<Event>): map<string, Wallet>
    decreases |events|
  {
    if |events| == 0 then files
    else
      var files' := if events[0].Save? && events[0].written then files[events[0].name := events[0].record] else files;
      Persist(files', events[1..])
  }

  /** No successful write happens in the trace. */
  predicate NoWrites(events: seq<Event>) {
    forall i | 0 <= i < |events| :: !(events[i].Save? && events[i].written)
  }

  /** A trace without successful writes leaves every wallet file as it was. */
  lemma {:induction false} PersistWithoutWrites(files: map<string, Wallet>, events: seq<Event>)
    requires NoWrites(events)
    ensures Persist(files, events) == files
    decreases |events|
  {
    if |events| > 0 {
      assert NoWrites(events[1..]) by {
        forall i | 0 <= i < |events[1..]| ensures !(events[1..][i].Save? && events[1..][i].written) {
          assert events[1..][i] == events[i + 1];
        }
      }
      PersistWithoutWrites(files, events[1..]);
    }
  }

  /** Replaying two traces one after the other is replaying their concatenation. */
  lemma {:induction false} PersistAppend(files: map<string, Wallet>, a: seq<Event>, b: seq<Event>)
    ensures Persist(files, a + b) == Persist(Persist(files, a), b)
    decreases |a|
  {
    if |a| > 0 {
      assert (a + b)[0] == a[0];
      assert (a + b)[1..] == a[1..] + b;
      var files' := if a[0].Save? && a[0].written then files[a[0].name := a[0].record] else files;
      PersistAppend(files', a[1..], b);
    } else {
      assert a + b == b;
    }
  }

  /** The trace with the advisory lines dropped. */
  function WithoutAdvisories(events: seq<Event>): seq<Event>
    decreases |events|
  {
    if |events| == 0 then []
    else (if events[0].Advisory? then [] else [events[0]]) + WithoutAdvisories(events[1..])
  }

  lemma {:induction false} WithoutAdvisoriesAppend(a: seq<Event>, b: seq<Event>)
    ensures WithoutAdvisories(a + b) == WithoutAdvisories(a) + WithoutAdvisories(b)
    decreases |a|
  {
    if |a| > 0 {
      assert (a + b)[0] == a[0];
      assert (a + b)[1..] == a[1..] + b;
      WithoutAdvisoriesAppend(a[1..], b);
    } else {
      assert a + b == b;
    }
  }

  /**
    A `name` flag the commands reject: `!name || name === ""`. For a string
    flag `!name` already holds exactly when the flag is absent or empty, so
    the second test adds nothing.
   */
  predicate NameMissing(name: Option<string>) {
    name.None? || name.value == ""
  }

  /** Everything one receive address is derived from, and the two paths it is derived along. */
  datatype Derivation = Derivation(mnemonic: string, network: HdNetwork, accountPath: string, leafPath: string)

  /**
    How address `index` of wallet `w` is derived: the master node for the
    wallet's network (testnet only for the exact value "testnet"), then the
    account path, then the leaf path.
   */
  function PlanDerivation(w: Wallet, index: nat): (d: Derivation)
    ensures d.mnemonic == w.mnemonic
    ensures d.network == Testnet <==> w.network == "testnet"
  {
    Derivation(w.mnemonic, if w.network == "testnet" then Testnet else Mainnet, HdPath.AccountPath, HdPath.LeafPath(index))
  }

  /**
    The two paths of every plan read, in BIP-32 notation, as the five BIP-44
    levels m/44'/145'/0'/0/index: Bitcoin Cash coin type, first account,
    external chain. This holds for every index below 2^31; from there on the
    leaf path names no unhardened child.
   */
  lemma PlanFollowsBip44(w: Wallet, index: nat)
    ensures HdPath.ParsePath(PlanDerivation(w, index).accountPath) == Some(HdPath.Path(true, HdPath.AccountLevels()))
    ensures HdPath.ParsePath(PlanDerivation(w, index).leafPath)
         == if index < HdPath.HardenedOffset
            then Some(HdPath.Path(false, [HdPath.Level(HdPath.ExternalChain, false), HdPath.Level(index, false)]))
            else None
  {
    HdPath.AccountPathIsBip44();
    HdPath.LeafPathIsExternalChain(index);
  }

  /** The HD node a derivation plan reaches. */
  function DeriveNode<S, N>(lib: Library<S, N>, d: Derivation): N {
    var master := lib.fromSeed(lib.toSeed(d.mnemonic), d.network);
    var account := lib.derivePath(master, d.accountPath);
    lib.derivePath(account, d.leafPath)
  }

  /** The cash address of derivation index `index` of wallet `w`. */
  function GenerateAddress<S, N>(lib: Library<S, N>, w: Wallet, index: nat): string {
    lib.toCashAddress(DeriveNode(lib, PlanDerivation(w, index)))
  }

  /** An address depends on the wallet only through its mnemonic and network, never on its counter or balances. */
  lemma AddressDependsOnSeedMaterialOnly<S, N>(lib: Library<S, N>, w1: Wallet, w2: Wallet, index: nat)
    requires w1.mnemonic == w2.mnemonic && w1.network == w2.network
    ensures PlanDerivation(w1, index) == PlanDerivation(w2, index)
    ensures GenerateAddress(lib, w1, index) == GenerateAddress(lib, w2, index)
  {
  }

  /** Two indices of one wallet are derived along different paths. */
  lemma DistinctIndicesDistinctPaths(w: Wallet, i: nat, j: nat)
    requires i != j
    ensures PlanDerivation(w, i) != PlanDerivation(w, j)
  {
    HdPath.LeafPathInjective(i, j);
  }
}
