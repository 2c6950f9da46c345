/** Kernel versions and Firecracker CI discovery (internal/lifecycle/kernels.go). */
module Kernels {
  import opened Model
  import opened Text

  // ---------------------------------------------------------------------------------------------
  // Version ranks

  const MAX_UINT64 := 0xFFFF_FFFF_FFFF_FFFF
  const MAX_INT64 := 0x7FFF_FFFF_FFFF_FFFF

  datatype Scan = Syntax | Range | Number(n: nat)

  /** strconv.ParseUint in base 10: the range error comes as soon as another digit would overflow. */
  function ScanUint(s: string, n: nat): Scan {
    if s == "" then Number(n)
    else if !IsDigit(s[0]) then Syntax
    else if n >= MAX_UINT64 / 10 + 1 then Range
    else
      var m := 10 * n + (s[0] as int - '0' as int);
      if m > MAX_UINT64 then Range else ScanUint(s[1..], m)
  }

  /** The number of `n, _ := strconv.Atoi(s)`: 0 for a syntax error, the nearest int64 for a range error. */
  function AtoiIgnoringError(s: string): int {
    var negative := s != "" && s[0] == '-';
    var body := if s != "" && (s[0] == '-' || s[0] == '+') then s[1..] else s;
    if body == "" then 0
    else match ScanUint(body, 0)
      case Syntax => 0
      case Range => if negative then -MAX_INT64 - 1 else MAX_INT64
      case Number(n) =>
        if negative then (if n > MAX_INT64 + 1 then -MAX_INT64 - 1 else -(n as int))
        else if n > MAX_INT64 then MAX_INT64 else n
  }

  datatype Rank = Rank(major: int, minor: int, patch: int, noACPI: bool)

  function NumberAt(parts: seq<string>, i: nat): int {
    if i < |parts| then AtoiIgnoringError(parts[i]) else 0
  }

  function RankOf(version: string): Rank {
    var parts := Split(TrimSuffix(version, "-no-acpi"), '.');
    Rank(NumberAt(parts, 0), NumberAt(parts, 1), NumberAt(parts, 2), HasSuffix(version, "-no-acpi"))
  }

  method ParseKernelVersionRank(version: string) returns (major: int, minor: int, patch: int, noACPI: bool)
    ensures Rank(major, minor, patch, noACPI) == RankOf(version)
  {
    noACPI := HasSuffix(version, "-no-acpi");
    var parts := Split(TrimSuffix(version, "-no-acpi"), '.');
    var nums := [0, 0, 0];
    var i := 0;
    while i < |parts| && i < |nums|
      invariant |nums| == 3 && 0 <= i <= 3 && i <= |parts|
      invariant forall j :: 0 <= j < 3 ==> nums[j] == if j < i then NumberAt(parts, j) else 0
    {
      nums := nums[i := AtoiIgnoringError(parts[i])];
      i := i + 1;
    }
    return nums[0], nums[1], nums[2], noACPI;
  }

  function CompareKernelVersions(a: string, b: string): int {
    var x, y := RankOf(a), RankOf(b);
    if x.major != y.major then (if x.major > y.major then 1 else -1)
    else if x.minor != y.minor then (if x.minor > y.minor then 1 else -1)
    else if x.patch != y.patch then (if x.patch > y.patch then 1 else -1)
    else if x.noACPI == y.noACPI then CompareText(a, b)
    else if y.noACPI then 1
    else -1
  }

  /** Zero only for equal strings, and antisymmetric. */
  lemma CompareVersionsOrder(a: string, b: string)
    ensures CompareKernelVersions(a, b) == -CompareKernelVersions(b, a)
    ensures CompareKernelVersions(a, b) == 0 <==> a == b
  {
    hide RankOf;
    CompareTextOrder(a, b);
  }

  lemma CompareVersionsTransitive(a: string, b: string, c: string)
    requires CompareKernelVersions(a, b) >= 0 && CompareKernelVersions(b, c) >= 0
    ensures CompareKernelVersions(a, c) >= 0
    ensures CompareKernelVersions(a, c) == 0 ==> a == b == c
  {
    hide RankOf;
    CompareVersionsOrder(a, b);
    CompareVersionsOrder(b, c);
    CompareVersionsOrder(a, c);
    if CompareText(a, b) >= 0 && CompareText(b, c) >= 0 {
      CompareTextTransitive(a, b, c);
    }
  }

  // ---------------------------------------------------------------------------------------------
  // Supported keys

  predicate ValidKernelVersionNumbers(version: string, major: int, minor: int) {
    var parts := Split(version, '.');
    |parts| == 3 && Atoi(parts[0]) == Some(major) && Atoi(parts[1]) == Some(minor)
    && Atoi(parts[2]).Some? && Atoi(parts[2]).value >= 0
  }

  predicate ValidFirecrackerKernelVersion(version: string) {
    if '/' in version || '\\' in version || ContainsText(version, "..") then false
    else if HasSuffix(version, "-no-acpi") then ValidKernelVersionNumbers(TrimSuffix(version, "-no-acpi"), 5, 10)
    else ValidKernelVersionNumbers(version, 5, 10) || ValidKernelVersionNumbers(version, 6, 1)
  }

  function StripSlashes(s: string): string {
    if s != "" && s[|s| - 1] == '/' then StripSlashes(s[..|s| - 1]) else s
  }

  function AfterLastSlash(s: string): string {
    if '/' !in s then s else AfterLastSlash(s[1..])
  }

  /** filepath.Base. */
  function Base(path: string): string {
    if path == "" then "."
    else
      var base := AfterLastSlash(StripSlashes(path));
      if base == "" then "/" else base
  }

  predicate SupportedKey(key: string) {
    !ContainsText(key, "/debug/") && !HasSuffix(key, ".config") && !HasSuffix(key, ".gz")
    && HasPrefix(Base(key), "vmlinux-") && ValidFirecrackerKernelVersion(TrimPrefix(Base(key), "vmlinux-"))
  }

  function KernelVariant(version: string): string {
    if HasSuffix(version, "-no-acpi") then "no-acpi" else "standard"
  }

  // ---------------------------------------------------------------------------------------------
  // Discovery

  datatype Item = Item(
    version: string, variant: string, kernelKey: string, configKey: string, kernelURL: string, configURL: string,
    alreadyRegistered: bool)

  /** firecrackerCIURL; `baseURL` has its trailing slashes removed. */
  function URL(baseURL: string, key: string): string {
    baseURL + "/" + key
  }

  lemma URLInjective(baseURL: string, a: string, b: string)
    requires URL(baseURL, a) == URL(baseURL, b)
    ensures a == b
  {
    var p := baseURL + "/";
    assert URL(baseURL, a)[|p|..] == a && URL(baseURL, b)[|p|..] == b;
  }

  lemma URLNotBlank(baseURL: string, key: string)
    ensures TrimSpace(URL(baseURL, key)) != ""
  {
    var url := URL(baseURL, key);
    assert url[|baseURL|] == '/';
    assert !IsSpace(url[|baseURL|]) && TrimLeft(url) != "" && !IsSpace(TrimLeft(url)[0]);
  }

  /** What discovery reports for a supported key: the config key is the key with ".config" when that was
      listed, and the artifact is registered when some kernel's provenance is its URL. */
  function ItemFor(baseURL: string, provenances: seq<string>, keys: seq<string>, key: string): Item {
    var version := TrimPrefix(Base(key), "vmlinux-");
    var configKey := if key + ".config" in keys then key + ".config" else "";
    Item(version, KernelVariant(version), key, configKey, URL(baseURL, key),
         if configKey == "" then "" else URL(baseURL, configKey), URL(baseURL, key) in provenances)
  }

  predicate Descending(items: seq<Item>) {
    forall i, j :: 0 <= i < j < |items| ==> CompareKernelVersions(items[i].version, items[j].version) >= 0
  }

  method InsertByVersion(r: seq<Item>, x: Item) returns (s: seq<Item>)
    requires Descending(r)
    ensures multiset(s) == multiset(r) + multiset{x} && Descending(s)
  {
    hide CompareKernelVersions;
    var k := 0;
    while k < |r| && CompareKernelVersions(r[k].version, x.version) >= 0
      invariant 0 <= k <= |r|
      invariant forall j :: 0 <= j < k ==> CompareKernelVersions(r[j].version, x.version) >= 0
    {
      k := k + 1;
    }
    InsertDescending(r, k, x);
    assert r == r[..k] + r[k..];
    s := r[..k] + [x] + r[k..];
  }

  /** sort.Slice by version, newest first. */
  method SortByVersion(items: seq<Item>) returns (r: seq<Item>)
    ensures multiset(r) == multiset(items) && Descending(r)
  {
    r := [];
    for i := 0 to |items|
      invariant multiset(r) == multiset(items[..i]) && Descending(r)
    {
      hide Descending;
      r := InsertByVersion(r, items[i]);
      assert items[..i + 1] == items[..i] + [items[i]];
    }
    assert items[..|items|] == items;
  }

  lemma InsertDescending(r: seq<Item>, k: nat, x: Item)
    requires Descending(r) && k <= |r|
    requires forall j :: 0 <= j < k ==> CompareKernelVersions(r[j].version, x.version) >= 0
    requires k < |r| ==> CompareKernelVersions(r[k].version, x.version) < 0
    ensures Descending(r[..k] + [x] + r[k..])
  {
    hide CompareKernelVersions;
    forall j | k <= j < |r|
      ensures CompareKernelVersions(x.version, r[j].version) >= 0
    {
      CompareVersionsOrder(r[k].version, x.version);
      if j > k {
        CompareVersionsTransitive(x.version, r[k].version, r[j].version);
      }
    }
  }

  ghost predicate DistinctKeys(items: seq<Item>) {
    forall i, j :: 0 <= i < j < |items| ==> items[i].kernelKey != items[j].kernelKey
  }

  /** One item for each supported key among the first n, and each item is what discovery should report. */
  ghost predicate Discovered(items: seq<Item>, baseURL: string, provenances: seq<string>, keys: seq<string>, n: nat)
    requires n <= |keys|
  {
    && DistinctKeys(items)
    && (forall it :: it in items ==> it.kernelKey in keys[..n] && SupportedKey(it.kernelKey))
    && (forall it :: it in items ==> it == ItemFor(baseURL, provenances, keys, it.kernelKey))
    && (forall key :: key in keys[..n] && SupportedKey(key) ==> exists it :: it in items && it.kernelKey == key)
  }

  lemma DiscoveredAdd(items: seq<Item>, baseURL: string, provenances: seq<string>, keys: seq<string>, n: nat)
    requires n < |keys| && Discovered(items, baseURL, provenances, keys, n)
    requires SupportedKey(keys[n]) && forall it :: it in items ==> it.kernelKey != keys[n]
    ensures Discovered(items + [ItemFor(baseURL, provenances, keys, keys[n])], baseURL, provenances, keys, n + 1)
  {
    hide SupportedKey, Base, TrimPrefix, KernelVariant, URL;
    var x := ItemFor(baseURL, provenances, keys, keys[n]);
    var more := items + [x];
    assert keys[..n + 1] == keys[..n] + [keys[n]];
    forall key | key in keys[..n + 1] && SupportedKey(key)
      ensures exists it :: it in more && it.kernelKey == key
    {
      if key == keys[n] {
        assert x in more;
      } else {
        var it :| it in items && it.kernelKey == key;
        assert it in more;
      }
    }
  }

  lemma DiscoveredSkip(items: seq<Item>, baseURL: string, provenances: seq<string>, keys: seq<string>, n: nat)
    requires n < |keys| && Discovered(items, baseURL, provenances, keys, n)
    requires SupportedKey(keys[n]) ==> exists it :: it in items && it.kernelKey == keys[n]
    ensures Discovered(items, baseURL, provenances, keys, n + 1)
  {
    hide SupportedKey, DistinctKeys, ItemFor;
    assert keys[..n + 1] == keys[..n] + [keys[n]];
  }

  lemma DiscoveredSorted(a: seq<Item>, b: seq<Item>, baseURL: string, provenances: seq<string>, keys: seq<string>)
    requires Discovered(a, baseURL, provenances, keys, |keys|) && multiset(a) == multiset(b)
    ensures Discovered(b, baseURL, provenances, keys, |keys|)
  {
    hide SupportedKey, ItemFor;
    SameMembers(a, b);
    DistinctKept(a, b);
    hide DistinctKeys;
    forall key | key in keys[..|keys|] && SupportedKey(key)
      ensures exists it :: it in b && it.kernelKey == key
    {
      var it :| it in a && it.kernelKey == key;
      assert it in b;
    }
  }

  /** discoveryItemsFromKeys. */
  method DiscoveryItemsFromKeys(baseURL: string, provenances: seq<string>, keys: seq<string>) returns (items: seq<Item>)
    ensures Discovered(items, baseURL, provenances, keys, |keys|) && Descending(items)
  {
    hide SupportedKey, Base, URL, TrimSpace, KernelVariant, TrimPrefix, Descending, DistinctKeys;
    var registered := Registered(provenances);
    var configs := Configs(keys);
    var unsorted: seq<Item> := [];
    var seen: set<string> := {};
    DiscoveredNone(baseURL, provenances, keys);
    for i := 0 to |keys|
      invariant Discovered(unsorted, baseURL, provenances, keys, i)
      invariant forall url :: url in seen <==> exists it :: it in unsorted && url == URL(baseURL, it.kernelKey)
    {
      hide Discovered;
      var key := keys[i];
      var url := URL(baseURL, key);
      if SupportedKey(key) && url !in seen {
        var version := TrimPrefix(Base(key), "vmlinux-");
        var configKey := if key in configs then configs[key] else "";
        URLNotBlank(baseURL, key);
        var item := Item(version, KernelVariant(version), key, configKey, url,
                         if configKey != "" then URL(baseURL, configKey) else "", url in registered);
        assert item == ItemFor(baseURL, provenances, keys, key);
        DiscoveredAdd(unsorted, baseURL, provenances, keys, i);
        seen := seen + {url};
        unsorted := unsorted + [item];
      } else {
        if SupportedKey(key) {
          var it :| it in unsorted && url == URL(baseURL, it.kernelKey);
          URLInjective(baseURL, it.kernelKey, key);
        }
        DiscoveredSkip(unsorted, baseURL, provenances, keys, i);
      }
    }
    items := SortByVersion(unsorted);
    DiscoveredSorted(unsorted, items, baseURL, provenances, keys);
  }

  lemma DiscoveredNone(baseURL: string, provenances: seq<string>, keys: seq<string>)
    ensures Discovered([], baseURL, provenances, keys, 0)
  {
  }

  method Registered(provenances: seq<string>) returns (registered: set<string>)
    ensures forall p :: p in registered <==> p in provenances && TrimSpace(p) != ""
  {
    hide TrimSpace;
    registered := {};
    for i := 0 to |provenances|
      invariant forall p :: p in registered <==> p in provenances[..i] && TrimSpace(p) != ""
    {
      if TrimSpace(provenances[i]) != "" {
        registered := registered + {provenances[i]};
      }
    }
  }

  method Configs(keys: seq<string>) returns (configs: map<string, string>)
    ensures forall key :: key in configs <==> key + ".config" in keys
    ensures forall key :: key in configs ==> configs[key] == key + ".config"
  {
    configs := map[];
    for i := 0 to |keys|
      invariant forall key :: key in configs <==> key + ".config" in keys[..i]
      invariant forall key :: key in configs ==> configs[key] == key + ".config"
    {
      ghost var before := configs;
      ConfigSuffix(keys[i]);
      if HasSuffix(keys[i], ".config") {
        configs := configs[TrimSuffix(keys[i], ".config") := keys[i]];
      }
      assert keys[..i + 1] == keys[..i] + [keys[i]];
      forall key
        ensures key in configs <==> key + ".config" in keys[..i + 1]
      {
        ConfigKeyOf(keys[i], key);
      }
    }
    assert keys[..|keys|] == keys;
  }

  lemma ConfigSuffix(key: string)
    ensures HasSuffix(key, ".config") ==> TrimSuffix(key, ".config") + ".config" == key
  {
  }

  lemma ConfigKeyOf(listed: string, key: string)
    ensures key + ".config" == listed <==> HasSuffix(listed, ".config") && TrimSuffix(listed, ".config") == key
  {
    if key + ".config" == listed {
      assert listed[|listed| - 7..] == ".config";
      assert listed[..|listed| - 7] == key;
    }
  }

  lemma SameMembers(a: seq<Item>, b: seq<Item>)
    requires multiset(a) == multiset(b)
    ensures forall x :: x in a <==> x in b
  {
    forall x
      ensures x in a <==> x in b
    {
      assert x in a <==> x in multiset(a);
    }
  }

  /** A permutation of a list with distinct keys has distinct keys. */
  lemma DistinctKept(a: seq<Item>, b: seq<Item>)
    requires multiset(a) == multiset(b)
    requires DistinctKeys(a)
    ensures DistinctKeys(b)
  {
    SameMembers(a, b);
    forall i, j | 0 <= i < j < |b|
      ensures b[i].kernelKey != b[j].kernelKey
    {
      if b[i].kernelKey == b[j].kernelKey {
        assert b[i] in a && b[j] in a;
        var k :| 0 <= k < |a| && a[k] == b[i];
        var l :| 0 <= l < |a| && a[l] == b[j];
        assert k == l;
        OnceOnly(a, k);
        TwiceAtLeast(b, i, j);
        assert false;
      }
    }
  }

  lemma OnceOnly(a: seq<Item>, k: nat)
    requires k < |a| && DistinctKeys(a)
    ensures multiset(a)[a[k]] == 1
  {
    assert a == a[..k] + [a[k]] + a[k + 1..];
    assert a[k] !in a[..k] && a[k] !in a[k + 1..];
  }

  lemma TwiceAtLeast(b: seq<Item>, i: nat, j: nat)
    requires i < j < |b| && b[i] == b[j]
    ensures multiset(b)[b[i]] >= 2
  {
    assert b == b[..i] + [b[i]] + b[i + 1..j] + [b[j]] + b[j + 1..];
  }
}
