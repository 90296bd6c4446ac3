/**
 `load_wallet_name_address_map` of `base.py` without the file read: the
 lookup from lower-cased wallet name to address that the transfer prompt uses.
 */
module NameMap {
  import opened Wrappers
  import opened WalletManager

  /** FileNotFoundError for the missing file, ValueError for too few wallets. */
  datatype MapError = WalletFileNotFound | TooFewWallets(found: nat)

  /** A transfer needs two distinct parties. */
  const MinWallets: nat := 2

  /** `str.lower()` on one character, for the ASCII letters. */
  function LowerChar(ch: char): char {
    if 'A' <= ch <= 'Z' then (ch as int - 'A' as int + 'a' as int) as char else ch
  }

  /** `str.lower()`, character by character. */
  function Lower(s: string): (r: string)
    ensures |r| == |s|
    ensures forall i :: 0 <= i < |s| ==> r[i] == LowerChar(s[i])
  {
    seq(|s|, i requires 0 <= i < |s| => LowerChar(s[i]))
  }

  /** No record after position `j` has the same lower-cased name as record `j`. */
  ghost predicate LastOfItsName(records: seq<WalletRecord>, j: int)
    requires 0 <= j < |records|
  {
    forall k :: j < k < |records| ==> Lower(records[k].name) != Lower(records[j].name)
  }

  /** The set of lower-cased names of the records. */
  ghost function LowerNames(records: seq<WalletRecord>): set<string> {
    set i | 0 <= i < |records| :: Lower(records[i].name)
  }

  /**
   The dict comprehension `{w["name"].lower(): w["address"] for w in wallets}`:
   records are inserted in order, so a later record overrides an earlier one
   with the same lower-cased name.
   */
  function NamesToAddresses(records: seq<WalletRecord>): (m: map<string, string>)
    ensures forall j :: 0 <= j < |records| ==> Lower(records[j].name) in m
    ensures forall k :: k in m ==>
      exists j :: 0 <= j < |records| && Lower(records[j].name) == k && m[k] == records[j].address
    decreases |records|
  {
    if records == [] then map[]
    else
      var init, last := records[..|records| - 1], records[|records| - 1];
      var earlier := NamesToAddresses(init);
      var m := earlier[Lower(last.name) := last.address];
      assert forall j :: 0 <= j < |records| ==> Lower(records[j].name) in m by {
        forall j | 0 <= j < |records|
          ensures Lower(records[j].name) in m
        {
          if j < |init| {
            assert records[j] == init[j];
          }
        }
      }
      assert forall k :: k in m ==>
        exists j :: 0 <= j < |records| && Lower(records[j].name) == k && m[k] == records[j].address
      by {
        forall k | k in m
          ensures exists j :: 0 <= j < |records| && Lower(records[j].name) == k && m[k] == records[j].address
        {
          if k == Lower(last.name) {
            assert Lower(records[|records| - 1].name) == k && m[k] == records[|records| - 1].address;
          } else {
            var j :| 0 <= j < |init| && Lower(init[j].name) == k && earlier[k] == init[j].address;
            assert records[j] == init[j];
          }
        }
      }
      m
  }

  /** The keys of the name map are exactly the lower-cased names. */
  lemma NameMapKeys(records: seq<WalletRecord>)
    ensures NamesToAddresses(records).Keys == LowerNames(records)
  {
  }

  /** The comprehension after the last record: the map of the earlier ones, updated with the last. */
  lemma NamesToAddressesLast(records: seq<WalletRecord>)
    requires records != []
    ensures NamesToAddresses(records)
         == NamesToAddresses(records[..|records| - 1])[Lower(records[|records| - 1].name) := records[|records| - 1].address]
  {
  }

  /** Each name maps to the address of the last record carrying that lower-cased name. */
  lemma {:induction false} NameMapLastWins(records: seq<WalletRecord>, j: nat)
    requires j < |records| && LastOfItsName(records, j)
    ensures Lower(records[j].name) in NamesToAddresses(records)
    ensures NamesToAddresses(records)[Lower(records[j].name)] == records[j].address
    decreases |records|
  {
    var n := |records| - 1;
    var init, last := records[..n], records[n];
    NamesToAddressesLast(records);
    if j < n {
      assert init[j] == records[j];
      assert LastOfItsName(init, j) by {
        forall k | j < k < n
          ensures Lower(init[k].name) != Lower(init[j].name)
        {
          assert init[k] == records[k];
        }
      }
      NameMapLastWins(init, j);
      assert Lower(last.name) != Lower(records[j].name);
    }
  }

  /**
   `load_wallet_name_address_map`: a missing file and a file with fewer than
   two records are errors; otherwise the name map of its records.
   */
  function LoadNameAddressMap(store: Store): (r: Result<map<string, string>, MapError>)
    ensures store.None? ==> r == Err(WalletFileNotFound)
    ensures store.Some? && |store.value| < MinWallets ==> r == Err(TooFewWallets(|store.value|))
    ensures r.Ok? <==> store.Some? && |store.value| >= MinWallets
    ensures r.Ok? ==> r.value == NamesToAddresses(store.value) && r.value.Keys == LowerNames(store.value)
  {
    match store
    case None => Err(WalletFileNotFound)
    case Some(wallets) =>
      if |wallets| < MinWallets then Err(TooFewWallets(|wallets|))
      else
        NameMapKeys(wallets);
        Ok(NamesToAddresses(wallets))
  }
}
