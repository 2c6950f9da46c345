/** Egress policy texts (internal/lifecycle/service.go): splitCSV, normalizePorts and normalizeCIDRs keep what a
    list admits, drop repetitions, and change nothing the second time. */
module PolicyText {
  import opened Model
  import opened Cidr
  import opened Text

  // ---------------------------------------------------------------------------------------------
  // splitCSV

  function NonEmptyTrimmed(parts: seq<string>): (r: seq<string>)
    ensures forall p :: p in r ==> p != "" && Trimmed(p)
  {
    if parts == [] then []
    else (if TrimSpace(parts[0]) != "" then [TrimSpace(parts[0])] else []) + NonEmptyTrimmed(parts[1..])
  }

  function SplitCSV(s: string): seq<string> {
    NonEmptyTrimmed(Split(s, ','))
  }

  lemma {:induction false} NonEmptySnoc(parts: seq<string>, p: string)
    ensures NonEmptyTrimmed(parts + [p]) == NonEmptyTrimmed(parts) + if TrimSpace(p) != "" then [TrimSpace(p)] else []
  {
    hide TrimSpace, Trimmed;
    if parts != [] {
      assert (parts + [p])[1..] == parts[1..] + [p];
      NonEmptySnoc(parts[1..], p);
    }
  }

  method SplitCSVLoop(s: string) returns (out: seq<string>)
    ensures out == SplitCSV(s)
  {
    hide Split, TrimSpace, Trimmed;
    var parts := Split(s, ',');
    out := [];
    for i := 0 to |parts|
      invariant out == NonEmptyTrimmed(parts[..i])
    {
      hide NonEmptyTrimmed;
      var part := TrimSpace(parts[i]);
      assert parts[..i + 1] == parts[..i] + [parts[i]];
      NonEmptySnoc(parts[..i], parts[i]);
      if part != "" {
        out := out + [part];
      }
    }
    assert parts[..|parts|] == parts;
  }

  /** The elements of a list are its non-blank parts between commas, trimmed. */
  lemma {:induction false} PartsListed(parts: seq<string>, x: string)
    ensures x in NonEmptyTrimmed(parts) <==> x != "" && exists p :: p in parts && TrimSpace(p) == x
  {
    hide TrimSpace;
    if parts != [] {
      PartsListed(parts[1..], x);
      if p :| p in parts && TrimSpace(p) == x {
        assert p == parts[0] || p in parts[1..];
      }
    }
  }

  /** A text that survives as one element of a list. */
  predicate IsItem(p: string) {
    p != "" && Trimmed(p) && ',' !in p
  }

  lemma {:induction false} ItemsKept(parts: seq<string>)
    requires forall p :: p in parts ==> IsItem(p)
    ensures NonEmptyTrimmed(parts) == parts
  {
    if parts == [] {
    } else {
      assert IsItem(parts[0]);
      ItemsKept(parts[1..]);
    }
  }

  /** Joining items with commas is undone by splitCSV. */
  lemma SplitCSVJoin(parts: seq<string>)
    requires forall p :: p in parts ==> IsItem(p)
    ensures SplitCSV(Join(parts, ',')) == parts
  {
    if parts == [] {
      assert Split("", ',') == [""];
      assert NonEmptyTrimmed([""]) == NonEmptyTrimmed([]);
    } else {
      SplitJoin(parts, ',');
      ItemsKept(parts);
    }
  }

  // ---------------------------------------------------------------------------------------------
  // Normal forms of lists, for any kind of element

  /** The elements in order of first occurrence, without those in `seen`; None at the first text that does
      not parse. */
  function Normal<T(!new, ==)>(parts: seq<string>, parse: string -> Option<T>, seen: set<T>): Option<seq<T>>
    decreases |parts|
  {
    if parts == [] then Some([])
    else match parse(parts[0])
      case None => None
      case Some(x) =>
        if x in seen then Normal(parts[1..], parse, seen)
        else match Normal(parts[1..], parse, seen + {x})
          case None => None
          case Some(xs) => Some([x] + xs)
  }

  function FormatAll<T(!new)>(xs: seq<T>, format: T -> string): (r: seq<string>)
    ensures |r| == |xs| && forall i :: 0 <= i < |xs| ==> r[i] == format(xs[i])
  {
    seq(|xs|, i requires 0 <= i < |xs| => format(xs[i]))
  }

  /** The stored text, or None where normalisation reports an error. */
  function Normalize<T(!new, ==)>(s: string, parse: string -> Option<T>, format: T -> string): Option<string> {
    match Normal(SplitCSV(s), parse, {})
    case None => None
    case Some(xs) => Some(Join(FormatAll(xs, format), ','))
  }

  /** Some text of the list parses to x. */
  ghost predicate Lists<T(!new)>(parts: seq<string>, parse: string -> Option<T>, x: T) {
    exists p :: p in parts && parse(p) == Some(x)
  }

  predicate NoRepeats<T(==)>(xs: seq<T>) {
    forall i, j :: 0 <= i < j < |xs| ==> xs[i] != xs[j]
  }

  lemma {:induction false} NormalElements<T(!new)>(parts: seq<string>, parse: string -> Option<T>, seen: set<T>)
    requires Normal(parts, parse, seen).Some?
    ensures NoRepeats(Normal(parts, parse, seen).value)
    ensures forall x :: x in Normal(parts, parse, seen).value <==> x !in seen && Lists(parts, parse, x)
    decreases |parts|
  {
    if parts == [] {
    } else {
      var first := parse(parts[0]).value;
      forall x
        ensures Lists(parts, parse, x) <==> x == first || Lists(parts[1..], parse, x)
      {
        if Lists(parts[1..], parse, x) {
          var p :| p in parts[1..] && parse(p) == Some(x);
          assert p in parts;
        }
      }
      NormalElements(parts[1..], parse, if first in seen then seen else seen + {first});
    }
  }

  /** Normalisation fails exactly when some part does not parse. */
  lemma {:induction false} NormalFails<T(!new)>(parts: seq<string>, parse: string -> Option<T>, seen: set<T>)
    ensures Normal(parts, parse, seen).None? <==> exists p :: p in parts && parse(p).None?
    decreases |parts|
  {
    if parts != [] {
      if parse(parts[0]).Some? {
        var first := parse(parts[0]).value;
        NormalFails(parts[1..], parse, if first in seen then seen else seen + {first});
        if p :| p in parts && parse(p).None? {
          assert p in parts[1..];
        }
      }
    }
  }

  ghost predicate Printer<T(!new)>(parse: string -> Option<T>, format: T -> string) {
    forall x :: parse(format(x)) == Some(x) && IsItem(format(x))
  }

  lemma {:induction false} NormalFixed<T(!new)>(xs: seq<T>, parse: string -> Option<T>, format: T -> string,
                                      seen: set<T>)
    requires Printer(parse, format) && NoRepeats(xs) && forall x :: x in xs ==> x !in seen
    ensures Normal(FormatAll(xs, format), parse, seen) == Some(xs)
    decreases |xs|
  {
    if xs == [] {
    } else {
      var texts := FormatAll(xs, format);
      assert texts[1..] == FormatAll(xs[1..], format);
      assert parse(format(xs[0])) == Some(xs[0]);
      NormalFixed(xs[1..], parse, format, seen + {xs[0]});
      assert [xs[0]] + xs[1..] == xs;
    }
  }

  lemma StoredItems<T(!new)>(xs: seq<T>, parse: string -> Option<T>, format: T -> string)
    requires Printer(parse, format) && NoRepeats(xs)
    ensures SplitCSV(Join(FormatAll(xs, format), ',')) == FormatAll(xs, format)
    ensures NoRepeats(FormatAll(xs, format))
  {
    hide SplitCSV, IsItem;
    var texts := FormatAll(xs, format);
    forall i | 0 <= i < |texts|
      ensures IsItem(texts[i]) && parse(texts[i]) == Some(xs[i])
    {
      assert IsItem(format(xs[i]));
    }
    SplitCSVJoin(texts);
  }

  /** The stored list has no repetitions, lists the elements of the raw list, and is its own normal form. */
  lemma NormalizeMeaning<T(!new)>(s: string, parse: string -> Option<T>, format: T -> string)
    requires Printer(parse, format) && Normalize(s, parse, format).Some?
    ensures var stored := Normalize(s, parse, format).value;
            NoRepeats(SplitCSV(stored)) && Normalize(stored, parse, format) == Some(stored)
            && forall x :: Lists(SplitCSV(stored), parse, x) <==> Lists(SplitCSV(s), parse, x)
  {
    hide SplitCSV, IsItem, Lists, NoRepeats, Join;
    var xs := Normal(SplitCSV(s), parse, {}).value;
    NormalElements(SplitCSV(s), parse, {});
    StoredItems(xs, parse, format);
    NormalFixed(xs, parse, format, {});
    NormalElements(FormatAll(xs, format), parse, {});
  }

  // ---------------------------------------------------------------------------------------------
  // Ports

  type Port = p: int | 1 <= p <= 65535 witness 1

  function ParsePort(s: string): Option<Port> {
    match Atoi(s)
    case None => None
    case Some(n) => if n < 1 || n > 65535 then None else Some(n)
  }

  function FormatPort(p: Port): string {
    Itoa(p)
  }

  lemma DigitIsItem(s: string)
    requires s != "" && forall c :: c in s ==> IsDigit(c) || c == '.' || c == '/'
    ensures IsItem(s)
  {
    assert s[0] in s && s[|s| - 1] in s;
  }

  /** A port text is read as its number, and numbers outside 1..65535 are refused. */
  lemma PortMeans(n: nat)
    ensures ParsePort(Itoa(n)) == if 1 <= n <= 65535 then Some(n) else None
  {
    ValueItoa(n);
    assert IsDigit(Itoa(n)[0]);
  }

  lemma PortPrinter()
    ensures Printer(ParsePort, FormatPort)
  {
    forall p: Port
      ensures ParsePort(FormatPort(p)) == Some(p) && IsItem(FormatPort(p))
    {
      AtoiItoa(p);
      DigitIsItem(Itoa(p));
    }
  }

  method NormalizePorts(s: string) returns (r: Option<string>)
    ensures r == Normalize(s, ParsePort, FormatPort)
  {
    hide SplitCSV, Join, Itoa, Atoi;
    var parts := SplitCSVLoop(s);
    var out: seq<string> := [];
    var seen: set<Port> := {};
    assert parts[0..] == parts;
    ghost var kept: seq<Port> := [];
    PrefixedEmpty(kept, Normal(parts, ParsePort, {}));
    for i := 0 to |parts|
      invariant out == FormatAll(kept, FormatPort)
      invariant Normal(parts, ParsePort, {}) == Prefixed(kept, Normal(parts[i..], ParsePort, seen))
    {
      assert parts[i..][0] == parts[i] && parts[i..][1..] == parts[i + 1..];
      var n := Atoi(parts[i]);
      if n.None? || n.value < 1 || n.value > 65535 {
        return None;
      }
      var port: Port := n.value;
      if port !in seen {
        PrefixedTwice(kept, port, Normal(parts[i + 1..], ParsePort, seen + {port}));
        out := out + [Itoa(port)];
        seen := seen + {port};
        kept := kept + [port];
      }
    }
    assert parts[|parts|..] == [];
    PrefixedEmpty(kept, None);
    r := Some(Join(out, ','));
  }

  function Prefixed<T>(kept: seq<T>, rest: Option<seq<T>>): Option<seq<T>> {
    if rest.Some? then Some(kept + rest.value) else None
  }

  lemma PrefixedEmpty<T>(kept: seq<T>, rest: Option<seq<T>>)
    ensures Prefixed([], rest) == rest && Prefixed(kept, Some([])) == Some(kept)
  {
    assert kept + [] == kept;
    if rest.Some? {
      assert [] + rest.value == rest.value;
    }
  }

  lemma PrefixedTwice<T>(kept: seq<T>, x: T, rest: Option<seq<T>>)
    ensures Prefixed(kept, Prefixed([x], rest)) == Prefixed(kept + [x], rest)
  {
    if rest.Some? {
      assert kept + ([x] + rest.value) == kept + [x] + rest.value;
    }
  }

  /** The stored port list has no repetitions, admits exactly the ports of the raw list, and normalising it
      again changes nothing. */
  lemma PortsPreserved(s: string)
    requires Normalize(s, ParsePort, FormatPort).Some?
    ensures var stored := Normalize(s, ParsePort, FormatPort).value;
            NoRepeats(SplitCSV(stored)) && Normalize(stored, ParsePort, FormatPort) == Some(stored)
            && forall port: Port :: Lists(SplitCSV(stored), ParsePort, port) <==> Lists(SplitCSV(s), ParsePort, port)
  {
    hide Normalize, Lists, SplitCSV;
    PortPrinter();
    NormalizeMeaning(s, ParsePort, FormatPort);
  }

  // ---------------------------------------------------------------------------------------------
  // CIDRs

  /** A list element: a CIDR with its host bits masked, or a bare address as a /32. */
  function ParseItem(s: string): Option<IPNet> {
    match ParseCIDR(s)
    case Some((_, n)) => Some(n)
    case None =>
      match ParseIPv4(s)
      case None => None
      case Some(ip) => Some(HostBlock(ip))
  }

  function HostBlock(ip: u32): (n: IPNet)
    ensures n.ip == ip && n.ones == 32
  {
    Block(ip, 32)
  }

  /** "10.0.0.7/24" stands for the block of that length around the address, and "10.0.0.7" for the address alone. */
  lemma ItemMeans(ip: u32, ones: nat)
    requires ones <= 32
    ensures ParseItem(FormatIP(ip)) == Some(HostBlock(ip))
    ensures var r := ParseItem(FormatIP(ip) + "/" + Itoa(ones));
            r.Some? && r.value.ones == ones && Contains(r.value, ip)
  {
    hide FormatIP, ParseIPv4, MaskedBlock, Contains;
    var p, m := FormatIP(ip), Itoa(ones);
    FormatIPChars(ip);
    ParseFormatIP(ip);
    assert '/' !in p && IndexOf(p, '/') == |p|;
    IndexAfter(p, '/', m);
    assert (p + "/" + m)[..|p|] == p && (p + "/" + m)[|p| + 1..] == m;
    ValueItoa(ones);
    ContainsIffInRange(MaskedBlock(ip, ones), ip);
  }

  lemma CidrPrinter()
    ensures Printer(ParseItem, FormatCIDR)
  {
    forall n: IPNet
      ensures ParseItem(FormatCIDR(n)) == Some(n) && IsItem(FormatCIDR(n))
    {
      ParseFormatCIDR(n);
      FormatIPChars(n.ip);
      DigitIsItem(FormatCIDR(n));
    }
  }

  /** The canonical text of one element, as the loop builds it. */
  function ItemText(part: string): Option<string> {
    match ParseCIDR(part)
    case Some((_, n)) => Some(FormatCIDR(n))
    case None =>
      match ParseIPv4(part)
      case None => None
      case Some(ip) => Some(FormatIP(ip) + "/32")
  }

  lemma ItemTextIsCanonical(part: string)
    ensures ItemText(part) == if ParseItem(part).Some? then Some(FormatCIDR(ParseItem(part).value)) else None
  {
    hide ParseCIDR, ParseIPv4, FormatIP;
    assert Itoa(3) == "3";
    assert Itoa(32) == "32";
    if ParseCIDR(part).None? && ParseIPv4(part).Some? {
      var ip := FormatIP(ParseIPv4(part).value);
      assert ip + "/" + "32" == ip + "/32";
    }
  }

  lemma FormatCIDRInjective(n: IPNet, m: IPNet)
    requires FormatCIDR(n) == FormatCIDR(m)
    ensures n == m
  {
    hide FormatCIDR, ParseCIDR;
    ParseFormatCIDR(n);
    ParseFormatCIDR(m);
  }

  /** The loop remembers texts where the specification remembers blocks. */
  ghost predicate SameSeen(nets: set<IPNet>, texts: set<string>) {
    forall n: IPNet :: n in nets <==> FormatCIDR(n) in texts
  }

  lemma SeenGrows(nets: set<IPNet>, texts: set<string>, net: IPNet)
    requires SameSeen(nets, texts)
    ensures SameSeen(nets + {net}, texts + {FormatCIDR(net)})
  {
    hide FormatCIDR;
    forall n: IPNet | FormatCIDR(n) == FormatCIDR(net)
      ensures n == net
    {
      FormatCIDRInjective(n, net);
    }
  }

  method NormalizeCIDRs(s: string) returns (r: Option<string>)
    ensures r == Normalize(s, ParseItem, FormatCIDR)
  {
    hide SplitCSV, Join, ParseItem, ItemText, FormatCIDR, SameSeen;
    var parts := SplitCSVLoop(s);
    var out: seq<string> := [];
    var seen: set<string> := {};
    assert parts[0..] == parts;
    ghost var kept: seq<IPNet> := [];
    ghost var nets: set<IPNet> := {};
    PrefixedEmpty(kept, Normal(parts, ParseItem, {}));
    NothingSeen();
    for i := 0 to |parts|
      invariant out == FormatAll(kept, FormatCIDR) && SameSeen(nets, seen)
      invariant Normal(parts, ParseItem, {}) == Prefixed(kept, Normal(parts[i..], ParseItem, nets))
    {
      assert parts[i..][0] == parts[i] && parts[i..][1..] == parts[i + 1..];
      var part := ItemText(parts[i]);
      ItemTextIsCanonical(parts[i]);
      if part.None? {
        return None;
      }
      ghost var net := ParseItem(parts[i]).value;
      WasSeen(nets, seen, net);
      if part.value !in seen {
        PrefixedTwice(kept, net, Normal(parts[i + 1..], ParseItem, nets + {net}));
        SeenGrows(nets, seen, net);
        out := out + [part.value];
        seen := seen + {part.value};
        nets := nets + {net};
        kept := kept + [net];
      }
    }
    assert parts[|parts|..] == [];
    PrefixedEmpty(kept, None);
    r := Some(Join(out, ','));
  }

  lemma NothingSeen()
    ensures SameSeen({}, {})
  {
  }

  lemma WasSeen(nets: set<IPNet>, texts: set<string>, net: IPNet)
    requires SameSeen(nets, texts)
    ensures net in nets <==> FormatCIDR(net) in texts
  {
  }

  /** The addresses a list admits. */
  ghost predicate Admits(s: string, ip: u32) {
    exists n: IPNet :: Lists(SplitCSV(s), ParseItem, n) && Contains(n, ip)
  }

  /** The stored CIDR list has no repetitions, admits exactly the addresses of the raw list, and normalising
      it again changes nothing. */
  lemma AddressesPreserved(s: string)
    requires Normalize(s, ParseItem, FormatCIDR).Some?
    ensures var stored := Normalize(s, ParseItem, FormatCIDR).value;
            NoRepeats(SplitCSV(stored)) && Normalize(stored, ParseItem, FormatCIDR) == Some(stored)
            && forall ip: u32 :: Admits(stored, ip) <==> Admits(s, ip)
  {
    hide Contains, ParseItem, FormatCIDR, SplitCSV, Lists, Normalize;
    CidrPrinter();
    NormalizeMeaning(s, ParseItem, FormatCIDR);
  }
}
