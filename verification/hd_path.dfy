/**
  The derivation paths the wallet hands to the key-derivation library, and a
  reading of path notation (BIP-32: `/`-separated levels, a trailing `'`
  marking a hardened level, an optional leading `m` for the master node) that
  shows which BIP-44 levels those strings denote.
 */
module HdPath {
  import opened Wrappers
  import Decimal

  /** One level of a derivation path. */
  datatype Level = Level(index: nat, hardened: bool)

  /** A parsed path: whether it starts at the master node, and its levels in order. */
  datatype Path = Path(fromMaster: bool, levels: seq<Level>)

  /** BIP-44 purpose level. */
  const Purpose: nat := 44
  /** SLIP-0044 coin type of Bitcoin Cash. */
  const CoinType: nat := 145
  /** The wallet only ever uses the first account. */
  const Account: nat := 0
  /** The external (receive) chain, as opposed to the change chain 1. */
  const ExternalChain: nat := 0
  /**
    BIP-32 child indices are 32 bits wide and those from 2^31 up are the
    hardened children, so path notation writes an index below 2^31 and marks
    hardening with `'`.
   */
  const HardenedOffset: nat := 0x8000_0000

  /** The account path, derived from the master node. */
  const AccountPath: string := "m/44'/145'/0'"

  /** The path of receive address `index`, relative to the account node. */
  function LeafPath(index: nat): string {
    "0/" + Decimal.FromNat(index)
  }

  /** The BIP-44 levels purpose'/coin_type'/account'. */
  function AccountLevels(): seq<Level> {
    [Level(Purpose, true), Level(CoinType, true), Level(Account, true)]
  }

  /** Splits on every `/`; a string without `/` is one part. */
  function Split(s: string): (parts: seq<string>)
    ensures |parts| >= 1
    decreases |s|
  {
    if |s| == 0 then [""]
    else
      var rest := Split(s[1..]);
      if s[0] == '/' then [""] + rest
      else [[s[0]] + rest[0]] + rest[1..]
  }

  /** A numeral naming an index below the hardened offset. */
  function ParseIndex(digits: string, hardened: bool): Option<Level> {
    if |digits| > 0 && Decimal.IsDigits(digits) && Decimal.ToNat(digits) < HardenedOffset then
      Some(Level(Decimal.ToNat(digits), hardened))
    else None
  }

  /** One path level: a numeral, optionally followed by the hardened marker. */
  function ParseLevel(segment: string): Option<Level> {
    if |segment| > 0 && segment[|segment| - 1] == '\'' then ParseIndex(segment[..|segment| - 1], true)
    else ParseIndex(segment, false)
  }

  function ParseLevels(segments: seq<string>): (r: Option<seq<Level>>)
    ensures r.Some? ==> |r.value| == |segments|
  {
    if |segments| == 0 then Some([])
    else
      match ParseLevel(segments[0])
      case None => None
      case Some(l) =>
        match ParseLevels(segments[1..])
        case None => None
        case Some(ls) => Some([l] + ls)
  }

  /** Reads a path; `None` for anything that is not a well-formed path of at least one level. */
  function ParsePath(s: string): Option<Path> {
    var parts := Split(s);
    var fromMaster := parts[0] == "m";
    var segments := if fromMaster then parts[1..] else parts;
    if |segments| == 0 then None
    else
      match ParseLevels(segments)
      case None => None
      case Some(ls) => Some(Path(fromMaster, ls))
  }

  lemma {:induction false} SplitNoSlash(a: string)
    requires '/' !in a
    ensures Split(a) == [a]
    decreases |a|
  {
    if |a| > 0 {
      assert '/' !in a[1..] by {
        forall i | 0 <= i < |a[1..]| ensures a[1..][i] != '/' {
          assert a[1..][i] == a[i + 1];
        }
      }
      SplitNoSlash(a[1..]);
      assert [a[0]] + a[1..] == a;
    }
  }

  lemma {:induction false} SplitAtSlash(a: string, b: string)
    requires '/' !in a
    ensures Split(a + "/" + b) == [a] + Split(b)
    decreases |a|
  {
    var s := a + "/" + b;
    if |a| == 0 {
      assert s == "/" + b;
      assert s[1..] == b;
    } else {
      assert s[1..] == a[1..] + "/" + b;
      assert '/' !in a[1..] by {
        forall i | 0 <= i < |a[1..]| ensures a[1..][i] != '/' {
          assert a[1..][i] == a[i + 1];
        }
      }
      SplitAtSlash(a[1..], b);
      assert [a[0]] + a[1..] == a;
    }
  }

  lemma DigitsHaveNoSlash(s: string)
    requires Decimal.IsDigits(s)
    ensures '/' !in s
  {
  }

  lemma NumeralLevel(n: nat, hardened: bool)
    ensures ParseIndex(Decimal.FromNat(n), hardened) == if n < HardenedOffset then Some(Level(n, hardened)) else None
  {
    Decimal.ToNatFromNat(n);
  }

  /** A hardened level written as its numeral followed by the marker. */
  lemma HardenedLevel(n: nat)
    requires n < HardenedOffset
    ensures ParseLevel(Decimal.FromNat(n) + "'") == Some(Level(n, true))
  {
    var segment := Decimal.FromNat(n) + "'";
    assert segment[..|segment| - 1] == Decimal.FromNat(n);
    NumeralLevel(n, true);
  }

  /** An unhardened level written as its bare numeral. */
  lemma PlainLevel(n: nat)
    ensures ParseLevel(Decimal.FromNat(n)) == if n < HardenedOffset then Some(Level(n, false)) else None
  {
    var digits := Decimal.FromNat(n);
    assert Decimal.IsDigit(digits[|digits| - 1]);
    NumeralLevel(n, false);
  }

  lemma {:induction false} ParseLevelsCons(segment: string, rest: seq<string>, l: Level, ls: seq<Level>)
    requires ParseLevel(segment) == Some(l) && ParseLevels(rest) == Some(ls)
    ensures ParseLevels([segment] + rest) == Some([l] + ls)
  {
    assert ([segment] + rest)[0] == segment;
    assert ([segment] + rest)[1..] == rest;
  }

  lemma AccountPathText()
    ensures AccountPath == "m" + "/" + ("44'" + "/" + ("145'" + "/" + "0'"))
  {
  }

  lemma {:induction false} SplitFour(m: string, a: string, b: string, c: string)
    requires '/' !in m && '/' !in a && '/' !in b && '/' !in c
    ensures Split(m + "/" + (a + "/" + (b + "/" + c))) == [m, a, b, c]
  {
    SplitNoSlash(c);
    SplitAtSlash(b, c);
    SplitAtSlash(a, b + "/" + c);
    SplitAtSlash(m, a + "/" + (b + "/" + c));
  }

  lemma AccountPathParts()
    ensures Split(AccountPath) == ["m", "44'", "145'", "0'"]
  {
    AccountPathText();
    SplitFour("m", "44'", "145'", "0'");
  }

  lemma NumeralLiterals()
    ensures Decimal.FromNat(44) + "'" == "44'"
    ensures Decimal.FromNat(145) + "'" == "145'"
    ensures Decimal.FromNat(0) + "'" == "0'"
    ensures Decimal.FromNat(0) == "0"
  {
  }

  lemma AccountSegments()
    ensures ParseLevels(["44'", "145'", "0'"]) == Some(AccountLevels())
  {
    NumeralLiterals();
    HardenedLevel(44);
    HardenedLevel(145);
    HardenedLevel(0);
    assert ParseLevel("44'") == Some(Level(Purpose, true));
    assert ParseLevel("145'") == Some(Level(CoinType, true));
    assert ParseLevel("0'") == Some(Level(Account, true));
    assert ParseLevels([]) == Some([]);
    ParseLevelsCons("0'", [], Level(Account, true), []);
    assert ["0'"] + [] == ["0'"];
    assert [Level(Account, true)] + [] == [Level(Account, true)];
    assert ParseLevels(["0'"]) == Some([Level(Account, true)]);
    ParseLevelsCons("145'", ["0'"], Level(CoinType, true), [Level(Account, true)]);
    assert ["145'"] + ["0'"] == ["145'", "0'"];
    assert [Level(CoinType, true)] + [Level(Account, true)] == [Level(CoinType, true), Level(Account, true)];
    assert ParseLevels(["145'", "0'"]) == Some([Level(CoinType, true), Level(Account, true)]);
    ParseLevelsCons("44'", ["145'", "0'"], Level(Purpose, true), [Level(CoinType, true), Level(Account, true)]);
    assert ["44'"] + ["145'", "0'"] == ["44'", "145'", "0'"];
    assert [Level(Purpose, true)] + [Level(CoinType, true), Level(Account, true)] == AccountLevels();
  }

  /** The account path is the BIP-44 prefix m/purpose'/coin_type'/account' with the Bitcoin Cash coin type. */
  lemma AccountPathIsBip44()
    ensures ParsePath(AccountPath) == Some(Path(true, AccountLevels()))
  {
    AccountPathParts();
    AccountSegments();
    assert ["m", "44'", "145'", "0'"][1..] == ["44'", "145'", "0'"];
  }

  lemma LeafPathParts(index: nat)
    ensures Split(LeafPath(index)) == ["0", Decimal.FromNat(index)]
  {
    var digits := Decimal.FromNat(index);
    assert LeafPath(index) == "0" + "/" + digits;
    DigitsHaveNoSlash(digits);
    SplitNoSlash(digits);
    SplitAtSlash("0", digits);
  }

  /**
    The leaf path is the two remaining BIP-44 levels: the external chain, then
    the address index, both unhardened. From 2^31 on the numeral no longer
    names an unhardened child, and the path is not a well-formed BIP-32 path.
   */
  lemma LeafPathIsExternalChain(index: nat)
    ensures ParsePath(LeafPath(index))
         == if index < HardenedOffset then Some(Path(false, [Level(ExternalChain, false), Level(index, false)])) else None
  {
    var digits := Decimal.FromNat(index);
    LeafPathParts(index);
    NumeralLiterals();
    PlainLevel(0);
    PlainLevel(index);
    assert ParseLevel("0") == Some(Level(ExternalChain, false));
    assert ["0", digits][1..] == [digits];
    assert Split(LeafPath(index))[0] != "m";
    if index < HardenedOffset {
      assert ParseLevels([]) == Some([]);
      ParseLevelsCons(digits, [], Level(index, false), []);
      assert [digits] + [] == [digits];
      assert [Level(index, false)] + [] == [Level(index, false)];
      assert ParseLevels([digits]) == Some([Level(index, false)]);
      ParseLevelsCons("0", [digits], Level(ExternalChain, false), [Level(index, false)]);
      assert ["0"] + [digits] == ["0", digits];
      assert [Level(ExternalChain, false)] + [Level(index, false)] == [Level(ExternalChain, false), Level(index, false)];
      assert ParseLevels(["0", digits]) == Some([Level(ExternalChain, false), Level(index, false)]);
    } else {
      assert ParseLevels([digits]) == None;
      assert ParseLevels(["0", digits]) == None;
    }
  }

  /** Distinct address indices are derived along distinct paths. */
  lemma LeafPathInjective(i: nat, j: nat)
    ensures LeafPath(i) == LeafPath(j) <==> i == j
  {
    if LeafPath(i) == LeafPath(j) {
      assert LeafPath(i)[2..] == Decimal.FromNat(i);
      assert LeafPath(j)[2..] == Decimal.FromNat(j);
      Decimal.FromNatInjective(i, j);
    }
  }
}
