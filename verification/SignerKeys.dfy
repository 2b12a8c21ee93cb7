/** The textual keys of stored txs (mempool/tx_store.go): sorted signers joined by '|', nonces in 20 digits. */
module SignerKeys {
  import opened Common
  import opened CosmosTypes
  import opened Numerals

  // --- Sorting a set of names ---

  /** sortedSignerKeys. */
  function SortedKeys(s: set<Account>): (keys: seq<Account>)
    ensures forall k :: k in keys <==> k in s
    ensures |keys| == |s|
    decreases |s|
  {
    if s == {} then [] else [Least(s)] + SortedKeys(s - {Least(s)})
  }

  ghost predicate IsAscending(keys: seq<string>) {
    forall i, j :: 0 <= i < j < |keys| ==> LexLess(keys[i], keys[j])
  }

  lemma {:induction false} SortedKeysAscend(s: set<string>)
    ensures IsAscending(SortedKeys(s))
    decreases |s|
  {
    hide LexLess;
    if s != {} {
      var least := Least(s);
      var rest := SortedKeys(s - {least});
      SortedKeysAscend(s - {least});
      forall j | 0 <= j < |rest| ensures LexLess(least, rest[j]) {
        assert rest[j] in rest;
        assert IsLeast(s, least);
      }
    }
  }

  lemma HeadIsLeast(a: seq<string>, s: set<string>)
    requires a != [] && IsAscending(a) && forall k :: k in a <==> k in s
    ensures IsLeast(s, a[0])
  {
    hide LexLess;
    assert a[0] in a;
    forall x | x in s ensures x == a[0] || LexLess(a[0], x) {
      assert x in a;
      var i :| 0 <= i < |a| && a[i] == x;
    }
  }

  lemma TailListsRest(a: seq<string>, s: set<string>)
    requires a != [] && IsAscending(a) && forall k :: k in a <==> k in s
    ensures IsAscending(a[1..]) && forall k :: k in a[1..] <==> k in s - {a[0]}
  {
    hide LexLess;
    forall k ensures k in a[1..] <==> k in s - {a[0]} {
      if k in a[1..] {
        var i :| 0 <= i < |a| - 1 && a[1..][i] == k;
        assert a[i + 1] == k;
        LexTrichotomy(k, k);
      }
      if k in s - {a[0]} {
        assert k in a;
        var i :| 0 <= i < |a| && a[i] == k;
        assert a[1..][i - 1] == k;
      }
    }
  }

  /** An ascending listing is determined by its set. */
  lemma {:induction false} AscendingIsUnique(a: seq<string>, s: set<string>)
    requires IsAscending(a) && forall k :: k in a <==> k in s
    ensures a == SortedKeys(s)
    decreases |s|
  {
    hide LexLess, IsLeast, IsAscending;
    if a == [] {
      assert s == {};
    } else {
      assert a[0] in a;
      HeadIsLeast(a, s);
      LeastIsUnique(s, a[0], Least(s));
      TailListsRest(a, s);
      AscendingIsUnique(a[1..], s - {a[0]});
      assert a == [a[0]] + a[1..];
    }
  }

  lemma InsertedAscends(keys: seq<string>, k: string, i: nat)
    requires IsAscending(keys) && k !in keys && i <= |keys|
    requires forall j :: 0 <= j < i ==> LexLess(keys[j], k)
    requires i < |keys| ==> !LexLess(keys[i], k)
    ensures IsAscending(keys[..i] + [k] + keys[i..])
  {
    forall j | i <= j < |keys| ensures LexLess(k, keys[j]) {
      LexTrichotomy(k, keys[i]);
      if j > i { LexTransitive(k, keys[i], keys[j]); }
    }
  }

  method InsertKey(keys: seq<string>, k: string) returns (r: seq<string>)
    requires IsAscending(keys) && k !in keys
    ensures IsAscending(r) && forall x :: x in r <==> x == k || x in keys
  {
    var i := 0;
    while i < |keys| && LexLess(keys[i], k)
      invariant i <= |keys| && forall j :: 0 <= j < i ==> LexLess(keys[j], k)
    {
      i := i + 1;
    }
    InsertedAscends(keys, k, i);
    assert keys == keys[..i] + keys[i..];
    r := keys[..i] + [k] + keys[i..];
  }

  /** Collecting the keys of a map in any order and sorting them gives the one ascending listing. */
  method SortKeys(s: set<string>) returns (keys: seq<string>)
    ensures keys == SortedKeys(s)
  {
    keys := [];
    var left := s;
    while left != {}
      invariant left <= s && IsAscending(keys)
      invariant forall k :: k in keys <==> k in s - left
      decreases |left|
    {
      var k := AnyOf(left);
      keys := InsertKey(keys, k);
      left := left - {k};
    }
    AscendingIsUnique(keys, s);
  }

  // --- Joining and its inverse ---

  function Join(parts: seq<string>): string {
    if parts == [] then ""
    else if |parts| == 1 then parts[0]
    else parts[0] + "|" + Join(parts[1..])
  }

  ghost predicate AllOfLength(parts: seq<string>, n: nat) {
    forall i :: 0 <= i < |parts| ==> |parts[i]| == n
  }

  lemma {:induction false} JoinLength(parts: seq<string>, n: nat)
    requires AllOfLength(parts, n)
    ensures |Join(parts)| == if parts == [] then 0 else |parts| * (n + 1) - 1
  {
    if |parts| > 1 { JoinLength(parts[1..], n); }
  }

  /** Parts of one known length can be read back from their join, whatever bytes they contain. */
  lemma {:induction false} JoinInjective(a: seq<string>, b: seq<string>, n: nat)
    requires n > 0 && AllOfLength(a, n) && AllOfLength(b, n) && Join(a) == Join(b)
    ensures a == b
  {
    JoinLength(a, n);
    JoinLength(b, n);
    if a != [] && b != [] {
      assert |a| == |b|;
      assert Join(a)[..n] == a[0] && Join(b)[..n] == b[0];
      if |a| > 1 {
        assert Join(a)[n + 1..] == Join(a[1..]) && Join(b)[n + 1..] == Join(b[1..]);
        JoinInjective(a[1..], b[1..], n);
      }
      assert a == [a[0]] + a[1..] && b == [b[0]] + b[1..];
    }
  }

  // --- The keys ---

  /** cosmosTxSignerSetKey. */
  function SignerSetKey(signers: set<Account>): string { Join(SortedKeys(signers)) }

  function Entry(nonces: map<Account, nat>, k: Account): string
    requires k in nonces
  {
    k + "/" + Padded(nonces[k], 20)
  }

  function Entries(nonces: map<Account, nat>, keys: seq<Account>): (r: seq<string>)
    requires forall i :: 0 <= i < |keys| ==> keys[i] in nonces
    ensures |r| == |keys| && forall i :: 0 <= i < |r| ==> r[i] == Entry(nonces, keys[i])
  {
    seq(|keys|, i requires 0 <= i < |keys| => Entry(nonces, keys[i]))
  }

  /** cosmosTxKey. */
  function TxKey(nonces: map<Account, nat>): string { Join(Entries(nonces, SortedKeys(nonces.Keys))) }

  /** All signers are of one length, as addresses derived from one kind of key are. */
  ghost predicate Sized(signers: set<Account>, len: nat) {
    len > 0 && forall k | k in signers :: |k| == len
  }

  ghost predicate Uint64s(nonces: map<Account, nat>) {
    forall k | k in nonces :: nonces[k] < UINT64_LIMIT
  }

  /** The signer-set key determines the signers. */
  lemma SignerSetKeyInjective(s: set<Account>, t: set<Account>, len: nat)
    requires Sized(s, len) && Sized(t, len) && SignerSetKey(s) == SignerSetKey(t)
    ensures s == t
  {
    var a, b := SortedKeys(s), SortedKeys(t);
    forall i | 0 <= i < |a| ensures |a[i]| == len { assert a[i] in a; }
    forall i | 0 <= i < |b| ensures |b[i]| == len { assert b[i] in b; }
    JoinInjective(a, b, len);
    assert forall k :: k in s <==> k in a;
    assert forall k :: k in t <==> k in b;
  }

  /** The tx key determines the signers and their nonces. */
  lemma TxKeyInjective(m: map<Account, nat>, n: map<Account, nat>, len: nat)
    requires Sized(m.Keys, len) && Sized(n.Keys, len) && Uint64s(m) && Uint64s(n) && TxKey(m) == TxKey(n)
    ensures m == n
  {
    hide Join, Entry, Sized, Uint64s, AllOfLength;
    var a, b := SortedKeys(m.Keys), SortedKeys(n.Keys);
    EntriesSized(m, a, len);
    EntriesSized(n, b, len);
    JoinInjective(Entries(m, a), Entries(n, b), len + 21);
    EntriesInjective(m, n, a, b, len);
    assert m.Keys == n.Keys by {
      assert forall k :: k in m <==> k in a;
      assert forall k :: k in n <==> k in b;
    }
    forall k | k in m ensures m[k] == n[k] {
      assert k in a;
      var i :| 0 <= i < |a| && a[i] == k;
      assert m[a[i]] == n[b[i]];
    }
  }

  lemma EntriesSized(m: map<Account, nat>, a: seq<Account>, len: nat)
    requires Sized(m.Keys, len) && forall i :: 0 <= i < |a| ==> a[i] in m
    ensures AllOfLength(Entries(m, a), len + 21)
  {
  }

  lemma EntriesInjective(m: map<Account, nat>, n: map<Account, nat>, a: seq<Account>, b: seq<Account>, len: nat)
    requires Sized(m.Keys, len) && Sized(n.Keys, len) && Uint64s(m) && Uint64s(n)
    requires (forall i :: 0 <= i < |a| ==> a[i] in m) && (forall i :: 0 <= i < |b| ==> b[i] in n)
    requires Entries(m, a) == Entries(n, b)
    ensures a == b && forall i :: 0 <= i < |a| ==> m[a[i]] == n[b[i]]
  {
    forall i | 0 <= i < |a| ensures a[i] == b[i] && m[a[i]] == n[b[i]] {
      assert Entries(m, a)[i] == Entries(n, b)[i];
      EntryInjective(m, n, a[i], b[i], len);
    }
  }

  lemma EntryInjective(m: map<Account, nat>, n: map<Account, nat>, j: Account, k: Account, len: nat)
    requires j in m && k in n && |j| == |k| == len && Uint64s(m) && Uint64s(n)
    requires Entry(m, j) == Entry(n, k)
    ensures j == k && m[j] == n[k]
  {
    assert Entry(m, j)[..len] == j && Entry(n, k)[..len] == k;
    assert Entry(m, j)[len + 1..] == Padded(m[j], 20) && Entry(n, k)[len + 1..] == Padded(n[k], 20);
    Uint64FitsTwentyDigits();
    PaddedInjective(m[j], n[k], 20);
  }

  // --- The order of the keys ---

  /** Between lists of equal-sized parts the first difference decides the order of the joins. */
  lemma {:induction false} JoinSorts(a: seq<string>, b: seq<string>, n: nat, i: nat)
    requires AllOfLength(a, n) && AllOfLength(b, n) && |a| == |b| && i < |a|
    requires a[..i] == b[..i] && LexLess(a[i], b[i])
    ensures LexLess(Join(a), Join(b))
  {
    if i == 0 {
      LexTrichotomy(a[0], b[0]);
      if |a| > 1 {
        var x, y := "|" + Join(a[1..]), "|" + Join(b[1..]);
        assert Join(a) == a[0] + x && Join(b) == b[0] + y;
        LexFirstPartDecides(a[0], b[0], x, y);
      }
    } else {
      assert a[..i][0] == b[..i][0] && a[1..][..i - 1] == a[..i][1..] == b[1..][..i - 1];
      JoinSorts(a[1..], b[1..], n, i - 1);
      assert Join(a) == (a[0] + "|") + Join(a[1..]) && Join(b) == (a[0] + "|") + Join(b[1..]);
      LexCommonPrefix(a[0] + "|", Join(a[1..]), Join(b[1..]));
    }
  }

  lemma EntrySorts(m: map<Account, nat>, n: map<Account, nat>, k: Account)
    requires k in m && k in n && m[k] < n[k] && Uint64s(n)
    ensures LexLess(Entry(m, k), Entry(n, k))
  {
    Uint64FitsTwentyDigits();
    PaddedSorts(m[k], n[k], 20);
    LexCommonPrefix(k + "/", Padded(m[k], 20), Padded(n[k], 20));
  }

  /** The first account whose nonces differ. */
  lemma {:induction false} FirstDifference(keys: seq<Account>, m: map<Account, nat>, n: map<Account, nat>)
    returns (i: nat)
    requires forall k :: 0 <= k < |keys| ==> keys[k] in m && keys[k] in n
    requires exists k :: 0 <= k < |keys| && m[keys[k]] != n[keys[k]]
    ensures i < |keys| && m[keys[i]] != n[keys[i]] && forall k :: 0 <= k < i ==> m[keys[k]] == n[keys[k]]
  {
    i := 0;
    while m[keys[i]] == n[keys[i]]
      invariant i < |keys| && forall k :: 0 <= k < i ==> m[keys[k]] == n[keys[k]]
      decreases |keys| - i
    {
      i := i + 1;
    }
  }

  /** Tx keys of one signer set sort with the nonces, where these are comparable pointwise. */
  lemma TxKeySorts(m: map<Account, nat>, n: map<Account, nat>, len: nat)
    requires m.Keys == n.Keys && Sized(m.Keys, len) && Uint64s(n) && m != n && forall k | k in m :: m[k] <= n[k]
    ensures LexLess(TxKey(m), TxKey(n))
  {
    hide Join, Entry, LexLess, Uint64s, Sized, AllOfLength, SortedKeys;
    var keys := SortedKeys(m.Keys);
    assert forall k :: 0 <= k < |keys| ==> keys[k] in keys;
    var a :| a in m && m[a] != n[a];
    assert a in keys;
    var i := FirstDifference(keys, m, n);
    var x, y := Entries(m, keys), Entries(n, keys);
    EntriesSized(m, keys, len);
    EntriesSized(n, keys, len);
    EntrySorts(m, n, keys[i]);
    forall k | 0 <= k < i ensures x[k] == y[k] { SameEntry(m, n, keys[k]); }
    assert x[..i] == y[..i];
    JoinSorts(x, y, len + 21, i);
  }

  lemma SameEntry(m: map<Account, nat>, n: map<Account, nat>, k: Account)
    requires k in m && k in n && m[k] == n[k]
    ensures Entry(m, k) == Entry(n, k)
  {
  }

  /** Without the length condition the signer-set key is ambiguous: one signer may contain the separator. */
  lemma SeparatorInSigner()
    ensures SignerSetKey({"a", "b"}) == SignerSetKey({"a|b"})
  {
    assert IsLeast({"a|b"}, "a|b");
    assert {"a|b"} - {"a|b"} == {};
    assert SortedKeys({"a|b"}) == ["a|b"];
    assert LexLess("a", "b");
    LeastIsUnique({"a", "b"}, Least({"a", "b"}), "a");
    assert {"a", "b"} - {"a"} == {"b"} && {"b"} - {"b"} == {};
    assert IsLeast({"b"}, "b");
    assert SortedKeys({"b"}) == ["b"];
    assert SortedKeys({"a", "b"}) == ["a", "b"];
    assert ["a", "b"][1..] == ["b"];
  }
}
