/** Kernel versions and keys as texts: what rank "6.1.155" has, which of two versions is newer, which keys are supported
    and what is reported for them. */
module KernelTexts {
  import opened Model
  import opened Text
  import opened Kernels

  // ---------------------------------------------------------------------------------------------
  // Numbers

  /** The nearest int64 of a natural number. */
  function Saturated(n: nat): nat {
    if n > MAX_INT64 then MAX_INT64 else n
  }

  lemma {:induction false} ScanAppend(s: string, d: char, n: nat)
    requires AllDigits(s) && IsDigit(d)
    ensures ScanUint(s + [d], n) == (match ScanUint(s, n)
                                     case Number(m) =>
                                       var next := 10 * m + (d as int - '0' as int);
                                       if next > MAX_UINT64 then Range else Number(next)
                                     case other => other)
  {
    if s == "" {
      assert (s + [d])[1..] == "";
    } else {
      assert (s + [d])[1..] == s[1..] + [d];
      assert IsDigit(s[0]);
      var m := 10 * n + (s[0] as int - '0' as int);
      if n < MAX_UINT64 / 10 + 1 && m <= MAX_UINT64 {
        ScanAppend(s[1..], d, m);
      }
    }
  }

  lemma {:induction false} ScanDigits(s: string)
    requires AllDigits(s)
    ensures ScanUint(s, 0) == if Value(s) > MAX_UINT64 then Range else Number(Value(s))
  {
    if s != "" {
      var init, d := s[..|s| - 1], s[|s| - 1];
      assert s == init + [d];
      ScanDigits(init);
      ScanAppend(init, d, 0);
    }
  }

  lemma ReadDigits(s: string)
    requires s != "" && AllDigits(s)
    ensures AtoiIgnoringError(s) == Saturated(Value(s))
  {
    assert IsDigit(s[0]);
    ScanDigits(s);
  }

  /** Where Atoi reports no error, the number read is its. */
  lemma AtoiAgrees(s: string)
    requires Atoi(s).Some?
    ensures AtoiIgnoringError(s) == Atoi(s).value
  {
    ScanDigits(if s[0] == '+' || s[0] == '-' then s[1..] else s);
  }

  // ---------------------------------------------------------------------------------------------
  // Versions

  const NO_ACPI := "-no-acpi"

  /** "6.1.155", or "6.1.155-no-acpi". */
  function VersionText(a: nat, b: nat, c: nat, noACPI: bool): string {
    Itoa(a) + "." + Itoa(b) + "." + Itoa(c) + if noACPI then NO_ACPI else ""
  }

  lemma ThreeParts(p: string, q: string, r: string)
    ensures Join([p, q, r], '.') == p + "." + q + "." + r
  {
    assert [p, q, r][1..] == [q, r] && [q, r][1..] == [r];
    assert Join([q, r], '.') == q + "." + r;
  }

  lemma PlainText(a: nat, b: nat, c: nat)
    ensures VersionText(a, b, c, false) == Join([Itoa(a), Itoa(b), Itoa(c)], '.')
    ensures Split(VersionText(a, b, c, false), '.') == [Itoa(a), Itoa(b), Itoa(c)]
    ensures !HasSuffix(VersionText(a, b, c, false), NO_ACPI)
    ensures forall x :: x in VersionText(a, b, c, false) ==> IsDigit(x) || x == '.'
  {
    var parts := [Itoa(a), Itoa(b), Itoa(c)];
    ThreeParts(Itoa(a), Itoa(b), Itoa(c));
    TextOf(a, b, c, false);
    SplitJoin(parts, '.');
    DigitsAndDots(parts);
    var s := VersionText(a, b, c, false);
    assert '-' !in s && (|s| >= 8 ==> s[|s| - 8..][0] == s[|s| - 8]);
  }

  lemma MarkedText(a: nat, b: nat, c: nat)
    ensures HasSuffix(VersionText(a, b, c, true), NO_ACPI)
    ensures TrimSuffix(VersionText(a, b, c, true), NO_ACPI) == VersionText(a, b, c, false)
  {
    var s, t := VersionText(a, b, c, true), VersionText(a, b, c, false);
    assert s == t + NO_ACPI;
    assert s[|s| - 8..] == NO_ACPI && s[..|s| - 8] == t;
  }

  /** The rank of a version text is its three numbers and its mark. */
  lemma RankOfText(a: nat, b: nat, c: nat, noACPI: bool)
    ensures RankOf(VersionText(a, b, c, noACPI)) == Rank(Saturated(a), Saturated(b), Saturated(c), noACPI)
  {
    hide VersionText, Itoa, AtoiIgnoringError;
    PlainText(a, b, c);
    MarkedText(a, b, c);
    forall n | n in [a, b, c]
      ensures AtoiIgnoringError(Itoa(n)) == Saturated(n)
    {
      ValueItoa(n);
      ReadDigits(Itoa(n));
    }
    assert a in [a, b, c] && b in [a, b, c] && c in [a, b, c];
  }

  /** Of two versions, the one with the greater major number is newer; then the minor number decides, then the patch; on
      equal numbers the standard build is newer than the one without ACPI. */
  lemma NewerVersion(a: nat, b: nat, c: nat, noACPI: bool, x: nat, y: nat, z: nat, noACPI': bool)
    requires a <= MAX_INT64 && b <= MAX_INT64 && c <= MAX_INT64 && x <= MAX_INT64 && y <= MAX_INT64 && z <= MAX_INT64
    ensures CompareKernelVersions(VersionText(a, b, c, noACPI), VersionText(x, y, z, noACPI')) == 1 <==>
            || a > x
            || (a == x && b > y)
            || (a == x && b == y && c > z)
            || (a == x && b == y && c == z && !noACPI && noACPI')
  {
    hide VersionText, RankOf;
    RankOfText(a, b, c, noACPI);
    RankOfText(x, y, z, noACPI');
    CompareTextOrder(VersionText(a, b, c, noACPI), VersionText(x, y, z, noACPI'));
  }

  /** In a list sorted by version, an earlier version text has no smaller numbers, most significant first. */
  lemma ListedByNumbers(items: seq<Item>, i: nat, j: nat, a: nat, b: nat, c: nat, m: bool, x: nat, y: nat, z: nat,
                        n: bool)
    requires Descending(items) && i < j < |items|
    requires items[i].version == VersionText(a, b, c, m) && items[j].version == VersionText(x, y, z, n)
    requires a <= MAX_INT64 && b <= MAX_INT64 && c <= MAX_INT64 && x <= MAX_INT64 && y <= MAX_INT64 && z <= MAX_INT64
    ensures a > x || (a == x && (b > y || (b == y && (c > z || (c == z && (m ==> n))))))
  {
    hide VersionText, CompareKernelVersions;
    NewerVersion(x, y, z, n, a, b, c, m);
    CompareVersionsOrder(items[i].version, items[j].version);
  }

  // ---------------------------------------------------------------------------------------------
  // Supported keys

  lemma NumbersOfText(a: nat, b: nat, c: nat, major: nat, minor: nat)
    requires major <= MAX_INT64 && minor <= MAX_INT64
    ensures ValidKernelVersionNumbers(VersionText(a, b, c, false), major, minor) <==>
            a == major && b == minor && c <= MAX_INT64
  {
    hide VersionText, Itoa;
    PlainText(a, b, c);
    AtoiOfItoa(a);
    AtoiOfItoa(b);
    AtoiOfItoa(c);
  }

  lemma AtoiOfItoa(n: nat)
    ensures Atoi(Itoa(n)) == if n <= MAX_INT64 then Some(n) else None
  {
    ValueItoa(n);
    assert IsDigit(Itoa(n)[0]);
  }

  /** The versions taken are 5.10 and 6.1, and without ACPI only 5.10. */
  lemma ValidVersions(a: nat, b: nat, c: nat, noACPI: bool)
    ensures ValidFirecrackerKernelVersion(VersionText(a, b, c, noACPI)) <==>
            c <= MAX_INT64 && ((a == 5 && b == 10) || (a == 6 && b == 1 && !noACPI))
  {
    hide Itoa, Join, HasSuffix, TrimSuffix, ValidKernelVersionNumbers;
    var s := VersionText(a, b, c, noACPI);
    PlainText(a, b, c);
    MarkedText(a, b, c);
    NoSlashes(a, b, c, noACPI);
    NoTwoDots(a, b, c, noACPI);
    NumbersOfText(a, b, c, 5, 10);
    NumbersOfText(a, b, c, 6, 1);
  }

  lemma NoSlashes(a: nat, b: nat, c: nat, noACPI: bool)
    ensures forall x :: x in VersionText(a, b, c, noACPI) ==> IsDigit(x) || x == '.' || x in NO_ACPI
    ensures '/' !in VersionText(a, b, c, noACPI) && '\\' !in VersionText(a, b, c, noACPI)
  {
    hide Join, HasSuffix;
    PlainText(a, b, c);
    assert VersionText(a, b, c, true) == VersionText(a, b, c, false) + NO_ACPI;
    assert VersionText(a, b, c, false) == Itoa(a) + "." + Itoa(b) + "." + Itoa(c);
  }

  lemma NoTwoDots(a: nat, b: nat, c: nat, noACPI: bool)
    ensures !ContainsText(VersionText(a, b, c, noACPI), "..")
  {
    var s, p, q, r := VersionText(a, b, c, noACPI), Itoa(a), Itoa(b), Itoa(c) + if noACPI then NO_ACPI else "";
    hide Itoa, VersionText;
    assert s == p + "." + q + "." + r by {
      TextOf(a, b, c, noACPI);
    }
    assert '.' !in p && '.' !in q && '.' !in r && q != "";
    DotPositions(p, q, r);
    if i :| 0 <= i <= |s| && OccursAt(s, "..", i) {
      TwoDots(s, i);
    }
  }

  lemma TwoDots(s: string, i: nat)
    requires OccursAt(s, "..", i)
    ensures s[i] == '.' && s[i + 1] == '.'
  {
    assert s[i..i + 2][0] == s[i] && s[i..i + 2][1] == s[i + 1];
  }

  lemma TextOf(a: nat, b: nat, c: nat, noACPI: bool)
    ensures VersionText(a, b, c, noACPI) == Itoa(a) + "." + Itoa(b) + "." + (Itoa(c) + if noACPI then NO_ACPI else "")
  {
  }

  lemma DotPositions(p: string, q: string, r: string)
    requires '.' !in p && '.' !in q && '.' !in r
    ensures var s := p + "." + q + "." + r;
            forall i :: 0 <= i < |s| && s[i] == '.' ==> i == |p| || i == |p| + 1 + |q|
  {
  }

  /** Versions are three parts between dots: the wanted numbers and a patch that is not negative, as Atoi reads them. */
  lemma NumbersExactly(version: string, major: nat, minor: nat)
    ensures ValidKernelVersionNumbers(version, major, minor) <==>
            exists p, q, r |
              '.' !in p && '.' !in q && '.' !in r && version == p + "." + q + "." + r ::
              Atoi(p) == Some(major) && Atoi(q) == Some(minor) && Atoi(r).Some? && Atoi(r).value >= 0
  {
    hide Atoi;
    var parts := Split(version, '.');
    JoinSplit(version, '.');
    if |parts| == 3 {
      assert parts == [parts[0], parts[1], parts[2]];
      ThreeParts(parts[0], parts[1], parts[2]);
    }
    forall p, q, r | '.' !in p && '.' !in q && '.' !in r && version == p + "." + q + "." + r
      ensures parts == [p, q, r]
    {
      ThreeParts(p, q, r);
      SplitJoin([p, q, r], '.');
    }
  }

  /** Every supported version, however its numbers are written, is ranked by what Atoi reads. */
  lemma SupportedRanks(version: string)
    requires ValidFirecrackerKernelVersion(version)
    ensures var parts := Split(TrimSuffix(version, NO_ACPI), '.');
            |parts| == 3 && Atoi(parts[0]).Some? && Atoi(parts[1]).Some? && Atoi(parts[2]).Some?
            && RankOf(version) == Rank(Atoi(parts[0]).value, Atoi(parts[1]).value, Atoi(parts[2]).value,
                                       HasSuffix(version, NO_ACPI))
  {
    hide Atoi, AtoiIgnoringError, HasSuffix;
    var parts := Split(TrimSuffix(version, NO_ACPI), '.');
    AtoiAgrees(parts[0]);
    AtoiAgrees(parts[1]);
    AtoiAgrees(parts[2]);
  }

  // ---------------------------------------------------------------------------------------------
  // Keys

  lemma {:induction false} AfterSlash(dir: string, name: string)
    requires '/' !in name
    ensures AfterLastSlash(dir + "/" + name) == name
  {
    var s := dir + "/" + name;
    assert s[|dir|] == '/';
    if dir == "" {
      assert s[1..] == name;
    } else {
      assert s[1..] == dir[1..] + "/" + name;
      AfterSlash(dir[1..], name);
    }
  }

  /** The last element of a path. */
  lemma BaseOf(dir: string, name: string)
    requires name != "" && '/' !in name
    ensures Base(dir + "/" + name) == name
  {
    var s := dir + "/" + name;
    assert s[|s| - 1] == name[|name| - 1];
    assert StripSlashes(s) == s;
    AfterSlash(dir, name);
  }

  /** A "/debug/" in a path lies in its directory. */
  lemma DebugInDir(dir: string, name: string)
    requires '/' !in name
    ensures ContainsText(dir + "/" + name, "/debug/") <==> ContainsText(dir + "/", "/debug/")
  {
    var s, d := dir + "/" + name, dir + "/";
    assert s[..|d|] == d;
    if i :| 0 <= i <= |s| && OccursAt(s, "/debug/", i) {
      assert s[i..i + 7][6] == '/';
      assert forall j :: |d| <= j < |s| ==> s[j] == name[j - |d|];
      assert OccursAt(d, "/debug/", i);
    }
    if i :| 0 <= i <= |d| && OccursAt(d, "/debug/", i) {
      assert OccursAt(s, "/debug/", i);
    }
  }

  lemma OtherEnding(dir: string, name: string, ending: string)
    requires name != "" && ending != "" && name[|name| - 1] != ending[|ending| - 1]
    ensures !HasSuffix(dir + "/" + name, ending)
  {
    var s := dir + "/" + name;
    assert s[|s| - 1] == name[|name| - 1];
    assert |ending| <= |s| ==> s[|s| - |ending|..][|ending| - 1] == s[|s| - 1];
  }

  /** The key of a version in a directory. */
  function KeyText(dir: string, version: string): string {
    dir + "/" + ("vmlinux-" + version)
  }

  lemma VersionEnding(a: nat, b: nat, c: nat, noACPI: bool)
    ensures var s := VersionText(a, b, c, noACPI);
            s != "" && (IsDigit(s[|s| - 1]) || s[|s| - 1] == 'i')
  {
    var s, t := VersionText(a, b, c, noACPI), Itoa(c);
    hide Itoa, VersionText;
    assert s == Itoa(a) + "." + Itoa(b) + "." + (t + if noACPI then NO_ACPI else "") by {
      TextOf(a, b, c, noACPI);
    }
    if noACPI {
      assert s[|s| - 1] == NO_ACPI[7] == 'i';
    } else {
      assert s[|s| - 1] == t[|t| - 1];
    }
  }

  /** The keys taken: 5.10 and 6.1 kernels, without ACPI only 5.10, in any directory but those of debug builds. */
  lemma SupportedExactly(dir: string, a: nat, b: nat, c: nat, noACPI: bool)
    ensures SupportedKey(KeyText(dir, VersionText(a, b, c, noACPI))) <==>
            !ContainsText(dir + "/", "/debug/")
            && c <= MAX_INT64 && ((a == 5 && b == 10) || (a == 6 && b == 1 && !noACPI))
  {
    hide VersionText, ContainsText, ValidFirecrackerKernelVersion, HasSuffix, Base;
    var version := VersionText(a, b, c, noACPI);
    var name := "vmlinux-" + version;
    NoSlashes(a, b, c, noACPI);
    VersionEnding(a, b, c, noACPI);
    assert name[|name| - 1] == version[|version| - 1] && '/' !in name;
    BaseOf(dir, name);
    DebugInDir(dir, name);
    OtherEnding(dir, name, ".config");
    OtherEnding(dir, name, ".gz");
    assert name[..8] == "vmlinux-" && name[8..] == version;
    ValidVersions(a, b, c, noACPI);
  }

  /** Configurations, compressed images and debug builds are never taken. */
  lemma NeverSupported(key: string)
    ensures HasSuffix(key, ".config") || HasSuffix(key, ".gz") || ContainsText(key, "/debug/") ==> !SupportedKey(key)
  {
  }

  /** What is reported for a key: its version, whether it lacks ACPI, its URL under the bucket, its configuration when
      that was listed, and whether a registered kernel came from that URL. */
  lemma ItemText(baseURL: string, provenances: seq<string>, keys: seq<string>, dir: string, a: nat, b: nat, c: nat,
                 noACPI: bool)
    ensures var key := KeyText(dir, VersionText(a, b, c, noACPI));
            var it := ItemFor(baseURL, provenances, keys, key);
            && it.version == VersionText(a, b, c, noACPI) && it.variant == (if noACPI then "no-acpi" else "standard")
            && it.kernelKey == key && it.kernelURL == baseURL + "/" + key
            && (it.configKey, it.configURL) == (if key + ".config" in keys
                  then (key + ".config", baseURL + "/" + (key + ".config")) else ("", ""))
            && (it.alreadyRegistered <==> baseURL + "/" + key in provenances)
  {
    hide VersionText, Base, HasSuffix;
    var version := VersionText(a, b, c, noACPI);
    var name := "vmlinux-" + version;
    NoSlashes(a, b, c, noACPI);
    BaseOf(dir, name);
    assert name[..8] == "vmlinux-" && name[8..] == version;
    PlainText(a, b, c);
    MarkedText(a, b, c);
  }
}
