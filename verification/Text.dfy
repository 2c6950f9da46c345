/** The string functions of Go's standard library that the service relies on: strings.TrimSpace, Split, Join and
    Fields, strconv.Itoa and Atoi, and the IPv4 half of net.ParseIP and net.ParseCIDR. */
module Text {
  import opened Model
  import opened Cidr

  // ---------------------------------------------------------------------------------------------
  // Spaces

  /** unicode.IsSpace. */
  predicate IsSpace(c: char) {
    '\U{0009}' <= c <= '\U{000D}' || c == ' ' || c == '\U{0085}' || c == '\U{00A0}' || c == '\U{1680}'
    || '\U{2000}' <= c <= '\U{200A}' || c == '\U{2028}' || c == '\U{2029}' || c == '\U{202F}' || c == '\U{205F}'
    || c == '\U{3000}'
  }

  function TrimLeft(s: string): (r: string)
    ensures r != "" ==> !IsSpace(r[0])
    ensures |r| <= |s| && r == s[|s| - |r|..]
    ensures forall i :: 0 <= i < |s| - |r| ==> IsSpace(s[i])
    ensures s != "" && !IsSpace(s[0]) ==> r == s
  {
    if s == "" || !IsSpace(s[0]) then s
    else
      var r := TrimLeft(s[1..]);
      assert forall i :: 1 <= i < |s| ==> s[i] == s[1..][i - 1];
      r
  }

  function TrimRight(s: string): (r: string)
    ensures r != "" ==> !IsSpace(r[|r| - 1])
    ensures |r| <= |s| && r == s[..|r|]
    ensures forall i :: |r| <= i < |s| ==> IsSpace(s[i])
    ensures s != "" && !IsSpace(s[|s| - 1]) ==> r == s
  {
    if s == "" || !IsSpace(s[|s| - 1]) then s
    else
      var r := TrimRight(s[..|s| - 1]);
      assert forall i :: 0 <= i < |s| - 1 ==> s[i] == s[..|s| - 1][i];
      r
  }

  predicate Trimmed(s: string) {
    s == "" || (!IsSpace(s[0]) && !IsSpace(s[|s| - 1]))
  }

  function TrimSpace(s: string): (r: string)
    ensures Trimmed(r) && (Trimmed(s) ==> r == s)
  {
    TrimRight(TrimLeft(s))
  }

  /** Exactly the spaces around a text are cut. */
  lemma TrimSpaceExactly(before: string, core: string, after: string)
    requires Trimmed(core) && forall c :: c in before || c in after ==> IsSpace(c)
    ensures TrimSpace(before + core + after) == core
  {
    hide IsSpace;
    var s := before + core + after;
    var t := TrimLeft(s);
    if core == "" {
      assert forall c :: c in s ==> IsSpace(c);
    } else {
      assert s[|before|] == core[0] && forall i :: 0 <= i < |before| ==> s[i] in before;
      assert |t| == |core| + |after|;
      assert t == core + after;
      assert t[|core| - 1] == core[|core| - 1];
      assert forall i :: |core| <= i < |t| ==> t[i] in after;
    }
  }

  // ---------------------------------------------------------------------------------------------
  // Split and Join on one character

  function Split(s: string, sep: char): (r: seq<string>)
    ensures |r| >= 1
    ensures forall p :: p in r ==> sep !in p
  {
    if s == "" then [""]
    else
      var r := Split(s[1..], sep);
      if s[0] == sep then [""] + r else [[s[0]] + r[0]] + r[1..]
  }

  function Join(parts: seq<string>, sep: char): string {
    if parts == [] then "" else if |parts| == 1 then parts[0] else parts[0] + [sep] + Join(parts[1..], sep)
  }

  /** strings.Join with a separator of any length. */
  function JoinText(parts: seq<string>, sep: string): string {
    if parts == [] then "" else if |parts| == 1 then parts[0] else parts[0] + sep + JoinText(parts[1..], sep)
  }

  lemma {:induction false} SplitWhole(s: string, sep: char)
    requires sep !in s
    ensures Split(s, sep) == [s]
  {
    if s == "" {
    } else {
      SplitWhole(s[1..], sep);
      assert [s[0]] + s[1..] == s;
    }
  }

  lemma {:induction false} SplitFirst(p: string, rest: string, sep: char)
    requires sep !in p
    ensures Split(p + [sep] + rest, sep) == [p] + Split(rest, sep)
  {
    var s := p + [sep] + rest;
    if p == "" {
      assert s[1..] == rest;
    } else {
      assert s[1..] == p[1..] + [sep] + rest;
      SplitFirst(p[1..], rest, sep);
      assert [p[0]] + p[1..] == p;
    }
  }

  /** Join is undone by Split when no part holds the separator. */
  lemma {:induction false} SplitJoin(parts: seq<string>, sep: char)
    requires parts != [] && forall p :: p in parts ==> sep !in p
    ensures Split(Join(parts, sep), sep) == parts
  {
    if |parts| == 1 {
      SplitWhole(parts[0], sep);
    } else {
      SplitJoin(parts[1..], sep);
      SplitFirst(parts[0], Join(parts[1..], sep), sep);
      assert [parts[0]] + parts[1..] == parts;
    }
  }

  lemma {:induction false} JoinSplit(s: string, sep: char)
    ensures Join(Split(s, sep), sep) == s
  {
    if s != "" {
      JoinSplit(s[1..], sep);
      var r := Split(s[1..], sep);
      if s[0] == sep {
        assert ([""] + r)[1..] == r;
      } else {
        assert ([[s[0]] + r[0]] + r[1..])[1..] == r[1..];
      }
    }
  }

  // ---------------------------------------------------------------------------------------------
  // Prefixes, suffixes, substrings and order

  predicate HasSuffix(s: string, t: string) {
    |t| <= |s| && s[|s| - |t|..] == t
  }

  function TrimSuffix(s: string, t: string): string {
    if HasSuffix(s, t) then s[..|s| - |t|] else s
  }

  predicate HasPrefix(s: string, t: string) {
    t <= s
  }

  function TrimPrefix(s: string, t: string): string {
    if HasPrefix(s, t) then s[|t|..] else s
  }

  predicate OccursAt(s: string, t: string, i: nat) {
    i + |t| <= |s| && s[i..i + |t|] == t
  }

  predicate ContainsText(s: string, t: string) {
    exists i :: 0 <= i <= |s| && OccursAt(s, t, i)
  }

  /** Position of the first c, or |s|. */
  function IndexOf(s: string, c: char): (i: nat)
    ensures i <= |s| && c !in s[..i] && (i < |s| ==> s[i] == c)
  {
    if s == "" || s[0] == c then 0
    else
      var i := 1 + IndexOf(s[1..], c);
      assert s[..i] == [s[0]] + s[1..][..i - 1];
      i
  }

  lemma {:induction false} IndexAfter(p: string, c: char, rest: string)
    requires c !in p
    ensures IndexOf(p + [c] + rest, c) == |p|
  {
    var s := p + [c] + rest;
    if p == "" {
    } else {
      assert s[1..] == p[1..] + [c] + rest;
      IndexAfter(p[1..], c, rest);
    }
  }

  /** strings.Compare. */
  function CompareText(a: string, b: string): (r: int)
    ensures -1 <= r <= 1
  {
    if a == "" && b == "" then 0
    else if a == "" then -1
    else if b == "" then 1
    else if a[0] < b[0] then -1
    else if a[0] > b[0] then 1
    else CompareText(a[1..], b[1..])
  }

  /** a comes before b: they agree up to a place where a ends, or has the smaller character. */
  predicate Before(a: string, b: string) {
    exists i :: 0 <= i <= |a| && i <= |b| && a[..i] == b[..i]
                && ((i == |a| && i < |b|) || (i < |a| && i < |b| && a[i] < b[i]))
  }

  /** The comparison is the lexicographic one. */
  lemma {:induction false} CompareTextMeaning(a: string, b: string)
    ensures CompareText(a, b) < 0 <==> Before(a, b)
  {
    if a == "" {
      assert a[..0] == b[..0];
    } else if b == "" {
    } else if a[0] != b[0] {
      assert a[..0] == b[..0];
      assert forall i :: 0 < i <= |a| && i <= |b| ==> a[..i][0] == a[0] && b[..i][0] == b[0];
    } else {
      CompareTextMeaning(a[1..], b[1..]);
      TailBefore(a, b);
    }
  }

  lemma TailBefore(a: string, b: string)
    requires a != "" && b != "" && a[0] == b[0]
    ensures Before(a[1..], b[1..]) <==> Before(a, b)
  {
    if i :| 0 <= i <= |a[1..]| && i <= |b[1..]| && a[1..][..i] == b[1..][..i]
            && ((i == |a[1..]| && i < |b[1..]|) || (i < |a[1..]| && i < |b[1..]| && a[1..][i] < b[1..][i])) {
      assert a[..i + 1] == [a[0]] + a[1..][..i] && b[..i + 1] == [b[0]] + b[1..][..i];
    }
    if i :| 0 <= i <= |a| && i <= |b| && a[..i] == b[..i]
            && ((i == |a| && i < |b|) || (i < |a| && i < |b| && a[i] < b[i])) {
      assert i > 0;
      assert a[1..][..i - 1] == a[..i][1..] && b[1..][..i - 1] == b[..i][1..];
    }
  }

  lemma {:induction false} CompareTextOrder(a: string, b: string)
    ensures CompareText(a, b) == -CompareText(b, a)
    ensures CompareText(a, b) == 0 <==> a == b
  {
    if a == "" || b == "" {
    } else {
      CompareTextOrder(a[1..], b[1..]);
      assert a == [a[0]] + a[1..] && b == [b[0]] + b[1..];
    }
  }

  lemma {:induction false} CompareTextTransitive(a: string, b: string, c: string)
    requires CompareText(a, b) >= 0 && CompareText(b, c) >= 0
    ensures CompareText(a, c) >= 0
    ensures CompareText(a, c) == 0 ==> CompareText(a, b) == 0 && CompareText(b, c) == 0
  {
    if a == "" || b == "" || c == "" {
    } else if a[0] == b[0] == c[0] {
      CompareTextTransitive(a[1..], b[1..], c[1..]);
    }
  }

  // ---------------------------------------------------------------------------------------------
  // Decimal numbers

  predicate IsDigit(c: char) {
    '0' <= c <= '9'
  }

  predicate AllDigits(s: string) {
    forall c :: c in s ==> IsDigit(c)
  }

  function DigitChar(d: int): (c: char)
    requires 0 <= d < 10
    ensures IsDigit(c) && c as int - '0' as int == d
  {
    '0' + d as char
  }

  function Itoa(n: nat): (s: string)
    ensures s != "" && AllDigits(s) && (|s| > 1 ==> n >= 10)
  {
    if n < 10 then [DigitChar(n)] else Itoa(n / 10) + [DigitChar(n % 10)]
  }

  function Value(s: string): nat
    requires AllDigits(s)
  {
    if s == "" then 0
    else
      assert IsDigit(s[|s| - 1]);
      10 * Value(s[..|s| - 1]) + (s[|s| - 1] as int - '0' as int)
  }

  lemma {:induction false} ValueItoa(n: nat)
    ensures Value(Itoa(n)) == n
    ensures Itoa(n)[0] == '0' ==> n == 0
  {
    if n < 10 {
      assert Itoa(n)[..0] == "";
    } else {
      ValueItoa(n / 10);
      assert Itoa(n)[..|Itoa(n)| - 1] == Itoa(n / 10);
    }
  }

  /** Digits without a leading zero are what Itoa prints of their value. */
  lemma {:induction false} ItoaValue(s: string)
    requires s != "" && AllDigits(s) && (|s| > 1 ==> s[0] != '0')
    ensures Itoa(Value(s)) == s && (|s| > 1 ==> Value(s) >= 10) && (s[0] != '0' ==> Value(s) > 0)
  {
    var init, d := s[..|s| - 1], s[|s| - 1];
    assert s == init + [d] && IsDigit(d);
    if |s| == 1 {
      assert Value(init) == 0;
      assert s == [DigitChar(Value(s))];
    } else {
      assert init[0] == s[0] && AllDigits(init);
      ItoaValue(init);
      assert Value(s) / 10 == Value(init) && DigitChar(Value(s) % 10) == d;
    }
  }

  lemma ItoaInjective(m: nat, n: nat)
    requires Itoa(m) == Itoa(n)
    ensures m == n
  {
    ValueItoa(m);
    ValueItoa(n);
  }

  /** strconv.Atoi; None is its error, a syntax error or a value outside int64. */
  function Atoi(s: string): Option<int> {
    var body := if s != "" && (s[0] == '+' || s[0] == '-') then s[1..] else s;
    if body == "" || !AllDigits(body) then None
    else
      var n: int := Value(body);
      var v := if s[0] == '-' then -n else n;
      if -0x8000_0000_0000_0000 <= v < 0x8000_0000_0000_0000 then Some(v) else None
  }

  lemma AtoiItoa(n: nat)
    requires n < 0x8000_0000_0000_0000
    ensures Atoi(Itoa(n)) == Some(n)
  {
    ValueItoa(n);
    assert IsDigit(Itoa(n)[0]);
  }

  // ---------------------------------------------------------------------------------------------
  // IPv4 addresses and CIDRs

  /** One field of a dotted quad: decimal, at most 255, no leading zero. */
  predicate IsOctet(s: string) {
    s != "" && AllDigits(s) && (|s| > 1 ==> s[0] != '0') && Value(s) <= 255
  }

  function ParseIPv4(s: string): Option<u32> {
    var f := Split(s, '.');
    if |f| == 4 && IsOctet(f[0]) && IsOctet(f[1]) && IsOctet(f[2]) && IsOctet(f[3]) then
      Some(IpToUint32(IP4(Value(f[0]), Value(f[1]), Value(f[2]), Value(f[3]))))
    else None
  }

  function FormatIP(v: u32): string {
    var ip := Uint32ToIP(v);
    Join([Itoa(ip.a), Itoa(ip.b), Itoa(ip.c), Itoa(ip.d)], '.')
  }

  lemma OctetItoa(n: octet)
    ensures IsOctet(Itoa(n)) && Value(Itoa(n)) == n && '.' !in Itoa(n)
  {
    ValueItoa(n);
  }

  /** Addresses survive printing, so address strings may stand for addresses. */
  lemma ParseFormatIP(v: u32)
    ensures ParseIPv4(FormatIP(v)) == Some(v)
  {
    hide IpToUint32, Uint32ToIP;
    var ip := Uint32ToIP(v);
    OctetItoa(ip.a);
    OctetItoa(ip.b);
    OctetItoa(ip.c);
    OctetItoa(ip.d);
    SplitJoin([Itoa(ip.a), Itoa(ip.b), Itoa(ip.c), Itoa(ip.d)], '.');
    Uint32ToIPInverse(v);
  }

  /** The only text read as an address is the one it is printed as. */
  lemma ParseIPv4Exactly(s: string, v: u32)
    ensures ParseIPv4(s) == Some(v) <==> s == FormatIP(v)
  {
    hide IpToUint32, Uint32ToIP, Itoa, Value;
    ParseFormatIP(v);
    if ParseIPv4(s) == Some(v) {
      var f := Split(s, '.');
      IpToUint32Inverse(IP4(Value(f[0]), Value(f[1]), Value(f[2]), Value(f[3])));
      ItoaValue(f[0]);
      ItoaValue(f[1]);
      ItoaValue(f[2]);
      ItoaValue(f[3]);
      JoinSplit(s, '.');
      assert f == [Itoa(Value(f[0])), Itoa(Value(f[1])), Itoa(Value(f[2])), Itoa(Value(f[3]))];
    }
  }

  /** net.ParseCIDR on IPv4 text: the address as written and the block it names. */
  function ParseCIDR(s: string): Option<(u32, IPNet)> {
    var i := IndexOf(s, '/');
    if i == |s| then None
    else
      var ip, mask := ParseIPv4(s[..i]), s[i + 1..];
      if ip.None? || mask == "" || !AllDigits(mask) || Value(mask) > 32 then None
      else Some((ip.value, MaskedBlock(ip.value, Value(mask))))
  }

  function FormatCIDR(n: IPNet): string {
    FormatIP(n.ip) + "/" + Itoa(n.ones)
  }

  lemma {:induction false} DigitsAndDots(parts: seq<string>)
    requires forall p :: p in parts ==> AllDigits(p)
    ensures forall c :: c in Join(parts, '.') ==> IsDigit(c) || c == '.'
  {
    if parts != [] {
      assert AllDigits(parts[0]);
      DigitsAndDots(parts[1..]);
    }
  }

  lemma FormatIPChars(v: u32)
    ensures FormatIP(v) != "" && forall c :: c in FormatIP(v) ==> IsDigit(c) || c == '.'
  {
    var ip := Uint32ToIP(v);
    DigitsAndDots([Itoa(ip.a), Itoa(ip.b), Itoa(ip.c), Itoa(ip.d)]);
  }

  lemma MaskedAgain(n: IPNet)
    ensures MaskedBlock(n.ip, n.ones) == n
  {
    hide Low, And, Pow2;
    MaskClears(n.ip, n.ones);
  }

  /** Blocks survive printing. */
  lemma ParseFormatCIDR(n: IPNet)
    ensures ParseCIDR(FormatCIDR(n)) == Some((n.ip, n))
  {
    hide FormatIP, ParseIPv4, MaskedBlock, Low, Pow2;
    FormatIPChars(n.ip);
    var p, m := FormatIP(n.ip), Itoa(n.ones);
    IndexAfter(p, '/', m);
    assert (p + "/" + m)[..|p|] == p && (p + "/" + m)[|p| + 1..] == m;
    ParseFormatIP(n.ip);
    ValueItoa(n.ones);
    MaskedAgain(n);
  }
}
