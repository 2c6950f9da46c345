/** Reading the output of a kernel test (internal/model/model.go). */
module KernelTest {
  import opened Cidr
  import opened Model
  import opened Text

  // ---------------------------------------------------------------------------------------------
  // Fields, quotes and line ends

  function Flush(word: string): seq<string> {
    if word == "" then [] else [word]
  }

  function ScanFields(s: string, word: string): seq<string> {
    if s == "" then Flush(word)
    else if IsSpace(s[0]) then Flush(word) + ScanFields(s[1..], "")
    else ScanFields(s[1..], word + [s[0]])
  }

  /** strings.Fields. */
  function Fields(s: string): seq<string> {
    ScanFields(s, "")
  }

  predicate IsQuote(c: char) {
    c == '\'' || c == '"'
  }

  /** strings.Trim(s, `'"`). */
  function TrimQuotes(s: string): string {
    if s != "" && IsQuote(s[0]) then TrimQuotes(s[1..])
    else if s != "" && IsQuote(s[|s| - 1]) then TrimQuotes(s[..|s| - 1])
    else s
  }

  function ReplaceCRLF(s: string): string {
    if s == "" then ""
    else if HasPrefix(s, "\r\n") then "\n" + ReplaceCRLF(s[2..])
    else [s[0]] + ReplaceCRLF(s[1..])
  }

  function ReplaceCR(s: string): string {
    if s == "" then "" else [if s[0] == '\r' then '\n' else s[0]] + ReplaceCR(s[1..])
  }

  function Tidy(output: string): string {
    ReplaceCR(ReplaceCRLF(TrimSpace(output)))
  }

  lemma {:induction false} ScanBreak(s: string, c: char, t: string, word: string)
    requires IsSpace(c)
    ensures ScanFields(s + [c] + t, word) == ScanFields(s, word) + ScanFields(t, "")
  {
    var u := s + [c] + t;
    if s == "" {
      assert u[1..] == t;
    } else {
      assert u[1..] == s[1..] + [c] + t;
      ScanBreak(s[1..], c, t, if IsSpace(s[0]) then "" else word + [s[0]]);
    }
  }

  lemma {:induction false} FieldsTrimLeft(s: string)
    ensures Fields(TrimLeft(s)) == Fields(s)
  {
    if s != "" && IsSpace(s[0]) {
      FieldsTrimLeft(s[1..]);
    }
  }

  lemma {:induction false} FieldsTrimRight(s: string)
    ensures Fields(TrimRight(s)) == Fields(s)
  {
    if s != "" && IsSpace(s[|s| - 1]) {
      var init := s[..|s| - 1];
      FieldsTrimRight(init);
      ScanBreak(init, s[|s| - 1], "", "");
      assert s == init + [s[|s| - 1]] + "";
      assert Fields(init) + [] == Fields(init);
    }
  }

  lemma {:induction false} ScanReplaceCRLF(s: string, word: string)
    ensures ScanFields(ReplaceCRLF(s), word) == ScanFields(s, word)
  {
    if s == "" {
    } else if HasPrefix(s, "\r\n") {
      ScanReplaceCRLF(s[2..], "");
      assert s[1..][0] == '\n' && s[1..][1..] == s[2..];
      assert ScanFields(s[1..], "") == ScanFields(s[2..], "");
    } else {
      ScanReplaceCRLF(s[1..], if IsSpace(s[0]) then "" else word + [s[0]]);
    }
  }

  lemma {:induction false} ScanReplaceCR(s: string, word: string)
    ensures ScanFields(ReplaceCR(s), word) == ScanFields(s, word)
  {
    if s != "" {
      ScanReplaceCR(s[1..], if IsSpace(s[0]) then "" else word + [s[0]]);
    }
  }

  /** Tidying changes no field. */
  lemma FieldsTidy(output: string)
    ensures Fields(Tidy(output)) == Fields(output)
  {
    hide IsSpace, TrimLeft, TrimRight, ReplaceCR, ReplaceCRLF, ScanFields;
    FieldsTrimLeft(output);
    FieldsTrimRight(TrimLeft(output));
    ScanReplaceCRLF(TrimSpace(output), "");
    ScanReplaceCR(ReplaceCRLF(TrimSpace(output)), "");
  }

  // ---------------------------------------------------------------------------------------------
  // Release and gateway

  predicate IsReleaseChar(c: char) {
    IsDigit(c) || 'a' <= c <= 'z' || 'A' <= c <= 'Z' || c in "-+._"
  }

  function DigitsEnd(s: string): (i: nat)
    ensures i <= |s| && AllDigits(s[..i]) && (i < |s| ==> !IsDigit(s[i]))
  {
    if s == "" || !IsDigit(s[0]) then 0
    else
      var i := 1 + DigitsEnd(s[1..]);
      assert s[..i] == [s[0]] + s[1..][..i - 1];
      i
  }

  /** kernelReleaseRe: digits, a dot and a digit, then release characters only. */
  predicate MatchesRelease(s: string) {
    var i := DigitsEnd(s);
    1 <= i && i + 1 < |s| && s[i] == '.' && IsDigit(s[i + 1]) && forall c :: c in s ==> IsReleaseChar(c)
  }

  predicate LooksLikeKernelRelease(token: string) {
    token != "" && ParseIPv4(token).None? && MatchesRelease(token)
  }

  function GatewayToken(token: string): Option<bool> {
    if token == "gateway-ok" then Some(true) else if token == "gateway-failed" then Some(false) else None
  }

  /** The first release-looking field, or "". */
  function ReleaseOf(fields: seq<string>): (r: string)
    ensures r == "" ==> forall i :: 0 <= i < |fields| ==> !LooksLikeKernelRelease(TrimQuotes(fields[i]))
    ensures r != "" ==>
              exists i :: 0 <= i < |fields| && TrimQuotes(fields[i]) == r && LooksLikeKernelRelease(r) &&
                          forall j :: 0 <= j < i ==> !LooksLikeKernelRelease(TrimQuotes(fields[j]))
  {
    if fields == [] then ""
    else
      var init, last := fields[..|fields| - 1], fields[|fields| - 1];
      assert fields == init + [last];
      var r := ReleaseOf(init);
      if r != "" then r
      else if LooksLikeKernelRelease(TrimQuotes(last)) then
        TrimQuotes(last)
      else ""
  }

  /** What the last gateway field says, if there is one. */
  function GatewayOf(fields: seq<string>): (g: Option<bool>)
    ensures g == None ==> forall i :: 0 <= i < |fields| ==> GatewayToken(TrimQuotes(fields[i])) == None
    ensures g != None ==>
              exists i :: 0 <= i < |fields| && GatewayToken(TrimQuotes(fields[i])) == g &&
                          forall j :: i < j < |fields| ==> GatewayToken(TrimQuotes(fields[j])) == None
  {
    if fields == [] then None
    else
      var init, last := fields[..|fields| - 1], fields[|fields| - 1];
      assert fields == init + [last];
      var g := GatewayToken(TrimQuotes(last));
      if g != None then g else GatewayOf(init)
  }

  function GatewayText(g: Option<bool>): string {
    match g case None => "" case Some(ok) => if ok then "gateway-ok" else "gateway-failed"
  }

  function Parts(release: string, gateway: Option<bool>): seq<string> {
    (if release != "" then [release] else []) + (if gateway.Some? then [GatewayText(gateway)] else [])
  }

  // ---------------------------------------------------------------------------------------------
  // Cleaning

  const WARNING := "Warning: Permanently added "

  predicate KeepLine(line: string) {
    line != "" && !HasPrefix(line, WARNING)
  }

  function KeptLines(lines: seq<string>): (r: seq<string>)
    ensures forall l :: l in r ==> KeepLine(l) && Trimmed(l)
  {
    if lines == [] then []
    else
      var line := TrimSpace(lines[|lines| - 1]);
      KeptLines(lines[..|lines| - 1]) + if KeepLine(line) then [line] else []
  }

  function Clean(output: string): string {
    var tidy := Tidy(output);
    var parts := Parts(ReleaseOf(Fields(tidy)), GatewayOf(Fields(tidy)));
    if parts != [] then Join(parts, ' ') else Join(KeptLines(Split(tidy, '\n')), '\n')
  }

  // ---------------------------------------------------------------------------------------------
  // The loops

  method ScanTokens(fields: seq<string>) returns (release: string, gateway: Option<bool>)
    ensures release == ReleaseOf(fields) && gateway == GatewayOf(fields)
  {
    hide TrimQuotes, MatchesRelease;
    release, gateway := "", None;
    for i := 0 to |fields|
      invariant release == ReleaseOf(fields[..i]) && gateway == GatewayOf(fields[..i])
    {
      assert fields[..i + 1][..i] == fields[..i];
      var token := TrimQuotes(fields[i]);
      GatewayIsNoRelease(token);
      if token == "gateway-ok" {
        gateway := Some(true);
      } else if token == "gateway-failed" {
        gateway := Some(false);
      } else if release == "" && LooksLikeKernelRelease(token) {
        release := token;
      }
    }
    assert fields[..|fields|] == fields;
  }

  lemma GatewayIsNoRelease(token: string)
    ensures GatewayToken(token) != None ==> !LooksLikeKernelRelease(token)
  {
    assert DigitsEnd("gateway-ok") == 0 && DigitsEnd("gateway-failed") == 0;
  }

  method CleanKernelTestOutput(output: string) returns (r: string)
    ensures r == Clean(output)
  {
    hide TrimSpace, ReplaceCR, ReplaceCRLF, ReleaseOf, GatewayOf, Fields, Split, KeptLines;
    var text := ReplaceCR(ReplaceCRLF(TrimSpace(output)));
    if text == "" {
      CleanNothing();
      return "";
    }
    var release, gateway := ScanTokens(Fields(text));
    var parts: seq<string> := [];
    if release != "" {
      parts := parts + [release];
    }
    if gateway.Some? {
      parts := parts + [GatewayText(gateway)];
    }
    assert parts == Parts(release, gateway);
    if |parts| > 0 {
      return Join(parts, ' ');
    }
    var lines := CleanLines(Split(text, '\n'));
    return Join(lines, '\n');
  }

  method CleanLines(lines: seq<string>) returns (r: seq<string>)
    ensures r == KeptLines(lines)
  {
    hide TrimSpace;
    r := [];
    for i := 0 to |lines|
      invariant r == KeptLines(lines[..i])
    {
      assert lines[..i + 1][..i] == lines[..i];
      var line := TrimSpace(lines[i]);
      if line == "" || HasPrefix(line, WARNING) {
        continue;
      }
      r := r + [line];
    }
    assert lines[..|lines|] == lines;
  }

  lemma CleanNothing()
    ensures ReleaseOf(Fields("")) == "" && GatewayOf(Fields("")) == None && KeptLines(Split("", '\n')) == []
  {
    assert Fields("") == [];
    assert Split("", '\n') == [""];
    assert TrimSpace("") == "";
    assert [""][..0] == [];
  }

  // ---------------------------------------------------------------------------------------------
  // What cleaning keeps

  predicate IsWord(w: string) {
    w != "" && forall c :: c in w ==> !IsSpace(c)
  }

  lemma {:induction false} ScanWord(w: string, word: string)
    requires forall c :: c in w ==> !IsSpace(c)
    ensures ScanFields(w, word) == Flush(word + w)
  {
    if w == "" {
      assert word + w == word;
    } else {
      assert !IsSpace(w[0]);
      ScanWord(w[1..], word + [w[0]]);
      assert word + [w[0]] + w[1..] == word + w;
    }
  }

  function AllFields(lines: seq<string>): seq<string> {
    if lines == [] then [] else Fields(lines[0]) + AllFields(lines[1..])
  }

  lemma {:induction false} FieldsJoin(lines: seq<string>, sep: char)
    requires IsSpace(sep)
    ensures Fields(Join(lines, sep)) == AllFields(lines)
  {
    hide IsSpace;
    if lines == [] {
    } else if |lines| == 1 {
      assert lines[1..] == [];
      assert Fields(lines[0]) + [] == Fields(lines[0]);
    } else {
      ScanBreak(lines[0], sep, Join(lines[1..], sep), "");
      FieldsJoin(lines[1..], sep);
    }
  }

  lemma {:induction false} AllFieldsOfWords(words: seq<string>)
    requires forall w :: w in words ==> IsWord(w)
    ensures AllFields(words) == words
  {
    if words != [] {
      assert IsWord(words[0]);
      ScanWord(words[0], "");
      assert "" + words[0] == words[0];
      AllFieldsOfWords(words[1..]);
    }
  }

  lemma {:induction false} AllFieldsSnoc(lines: seq<string>, line: string)
    ensures AllFields(lines + [line]) == AllFields(lines) + Fields(line)
  {
    hide Fields;
    if lines == [] {
      assert ([] + [line])[1..] == [];
      assert Fields(line) + [] == [] + Fields(line);
    } else {
      assert (lines + [line])[1..] == lines[1..] + [line];
      AllFieldsSnoc(lines[1..], line);
    }
  }

  /** Dropping and trimming lines invents no field. */
  lemma {:induction false} KeptFields(lines: seq<string>)
    ensures forall f :: f in AllFields(KeptLines(lines)) ==> f in AllFields(lines)
  {
    hide AllFields, Fields, TrimSpace, KeepLine, Trimmed;
    if lines == [] {
      assert KeptLines(lines) == lines;
    } else {
      var init, last := lines[..|lines| - 1], lines[|lines| - 1];
      assert lines == init + [last];
      KeptFields(init);
      AllFieldsSnoc(init, last);
      FieldsTrim(last);
      AllFieldsSnoc(KeptLines(init), TrimSpace(last));
      assert KeptLines(init) + [] == KeptLines(init);
    }
  }

  lemma FieldsTrim(s: string)
    ensures Fields(TrimSpace(s)) == Fields(s)
  {
    FieldsTrimLeft(s);
    FieldsTrimRight(TrimLeft(s));
  }

  lemma ReleaseIsWord(t: string)
    requires LooksLikeKernelRelease(t)
    ensures IsWord(t) && TrimQuotes(t) == t
  {
    hide ParseIPv4;
    assert IsReleaseChar(t[0]) && IsReleaseChar(t[|t| - 1]);
  }

  lemma GatewayTexts()
    ensures IsWord("gateway-ok") && TrimQuotes("gateway-ok") == "gateway-ok"
    ensures IsWord("gateway-failed") && TrimQuotes("gateway-failed") == "gateway-failed"
  {
  }

  /** The parts read back as the release and the gateway they were made of. */
  lemma PartsReadBack(release: string, gateway: Option<bool>)
    requires release == "" || LooksLikeKernelRelease(release)
    ensures forall p :: p in Parts(release, gateway) ==> IsWord(p)
    ensures ReleaseOf(Parts(release, gateway)) == release && GatewayOf(Parts(release, gateway)) == gateway
  {
    hide TrimQuotes, LooksLikeKernelRelease, ReleaseOf, GatewayOf, IsWord;
    var parts := Parts(release, gateway);
    assert parts == [] || parts == [release] || parts == [GatewayText(gateway)]
           || parts == [release, GatewayText(gateway)];
    if release != "" {
      ReleaseIsWord(release);
    }
    GatewayTexts();
    GatewayIsNoRelease(release);
    GatewayIsNoRelease(GatewayText(gateway));
    GatewayIsNoRelease("");
    TwoParts(release, gateway);
  }

  lemma TwoParts(release: string, gateway: Option<bool>)
    requires release == "" || (LooksLikeKernelRelease(release) && TrimQuotes(release) == release)
    requires GatewayToken(release) == None
    requires gateway.Some? ==> TrimQuotes(GatewayText(gateway)) == GatewayText(gateway)
    requires gateway.Some? ==> !LooksLikeKernelRelease(GatewayText(gateway))
    ensures ReleaseOf(Parts(release, gateway)) == release && GatewayOf(Parts(release, gateway)) == gateway
  {
    hide TrimQuotes, LooksLikeKernelRelease;
    var parts := Parts(release, gateway);
    var first := if release != "" then [release] else [];
    assert ReleaseOf(first) == release && GatewayOf(first) == None by {
      if release != "" {
        assert first[..0] == [];
      }
    }
    if gateway.Some? {
      assert parts[..|parts| - 1] == first;
    } else {
      assert parts == first;
    }
  }

  /** Cleaning keeps the first release-looking field and the last gateway field of the raw text. */
  lemma CleanKeepsAnswers(output: string)
    ensures ReleaseOf(Fields(Clean(output))) == ReleaseOf(Fields(output))
    ensures GatewayOf(Fields(Clean(output))) == GatewayOf(Fields(output))
  {
    hide Fields, Tidy, ReleaseOf, GatewayOf, KeptLines, Split, Join, LooksLikeKernelRelease, TrimQuotes, AllFields;
    var tidy := Tidy(output);
    FieldsTidy(output);
    var fields := Fields(output);
    var release, gateway := ReleaseOf(fields), GatewayOf(fields);
    var parts := Parts(release, gateway);
    PartsReadBack(release, gateway);
    if parts != [] {
      FieldsJoin(parts, ' ');
      AllFieldsOfWords(parts);
    } else {
      var lines := Split(tidy, '\n');
      FieldsJoin(lines, '\n');
      JoinSplit(tidy, '\n');
      FieldsJoin(KeptLines(lines), '\n');
      KeptFields(lines);
      NoAnswers(fields, AllFields(KeptLines(lines)));
    }
  }

  lemma NoAnswers(fields: seq<string>, fewer: seq<string>)
    requires ReleaseOf(fields) == "" && GatewayOf(fields) == None
    requires forall f :: f in fewer ==> f in fields
    ensures ReleaseOf(fewer) == "" && GatewayOf(fewer) == None
  {
    hide TrimQuotes, LooksLikeKernelRelease, GatewayToken;
    forall i | 0 <= i < |fewer|
      ensures !LooksLikeKernelRelease(TrimQuotes(fewer[i])) && GatewayToken(TrimQuotes(fewer[i])) == None
    {
      assert fewer[i] in fields;
      var j :| 0 <= j < |fields| && fields[j] == fewer[i];
    }
  }

  // ---------------------------------------------------------------------------------------------
  // Texts

  /** Exactly the quotes around a token are cut. */
  lemma {:induction false} TrimQuotesExactly(before: string, core: string, after: string)
    requires forall i :: 0 <= i < |before| ==> before[i] == '\'' || before[i] == '"'
    requires forall i :: 0 <= i < |after| ==> after[i] == '\'' || after[i] == '"'
    requires core != "" ==> !IsQuote(core[0]) && !IsQuote(core[|core| - 1])
    ensures TrimQuotes(before + core + after) == core
    decreases |before| + |after|
  {
    var s := before + core + after;
    if before != "" {
      assert s[1..] == before[1..] + core + after;
      TrimQuotesExactly(before[1..], core, after);
    } else if after != "" {
      if core == "" {
        assert s == after && s[1..] == "" + core + after[1..];
        TrimQuotesExactly("", core, after[1..]);
      } else {
        assert s[..|s| - 1] == "" + core + after[..|after| - 1];
        TrimQuotesExactly("", core, after[..|after| - 1]);
      }
    } else {
      assert s == core;
    }
  }

  /** A release is digits, a dot, a digit, and then letters, digits and the marks - + . _ only. */
  lemma ReleaseExactly(s: string)
    ensures MatchesRelease(s) <==>
            (exists i :: 1 <= i && i + 1 < |s| && AllDigits(s[..i]) && s[i] == '.' && '0' <= s[i + 1] <= '9')
            && forall c :: c in s ==> '0' <= c <= '9' || 'a' <= c <= 'z' || 'A' <= c <= 'Z'
                                      || c == '-' || c == '+' || c == '.' || c == '_'
  {
    assert forall c :: c in "-+._" <==> c == '-' || c == '+' || c == '.' || c == '_';
    var d := DigitsEnd(s);
    if i :| 1 <= i && i + 1 < |s| && AllDigits(s[..i]) && s[i] == '.' && '0' <= s[i + 1] <= '9' {
      FirstNonDigit(s, i, d);
    }
  }

  /** An address is no release, although it is written like one. */
  lemma LooksExactly(token: string)
    ensures LooksLikeKernelRelease(token) <==> MatchesRelease(token) && forall v: u32 :: token != FormatIP(v)
  {
    hide ParseIPv4, FormatIP;
    forall v: u32
      ensures ParseIPv4(token) == Some(v) <==> token == FormatIP(v)
    {
      ParseIPv4Exactly(token, v);
    }
  }

  lemma FirstNonDigit(s: string, i: nat, d: nat)
    requires i < |s| && d <= |s| && AllDigits(s[..i]) && AllDigits(s[..d])
    requires !IsDigit(s[i]) && (d < |s| ==> !IsDigit(s[d]))
    ensures i == d
  {
    assert forall j :: 0 <= j < i ==> s[..i][j] == s[j] && IsDigit(s[..i][j]);
    assert forall j :: 0 <= j < d ==> s[..d][j] == s[j] && IsDigit(s[..d][j]);
  }

  /** A report of a release and a gateway is read as what it says. */
  lemma ReportRead(release: string, ok: bool)
    requires LooksLikeKernelRelease(release)
    ensures var text := release + " " + (if ok then "gateway-ok" else "gateway-failed");
            ReleaseOf(Fields(text)) == release && GatewayOf(Fields(text)) == Some(ok) && Clean(text) == text
  {
    hide Fields, ReleaseOf, GatewayOf, LooksLikeKernelRelease, KeptLines, Split, Tidy;
    var parts := Parts(release, Some(ok));
    ReleaseIsWord(release);
    assert release != "" by {
      hide IsWord;
    }
    assert parts == [release, GatewayText(Some(ok))];
    assert parts[1..] == [GatewayText(Some(ok))];
    assert Join(parts, ' ') == release + " " + GatewayText(Some(ok));
    PartsReadBack(release, Some(ok));
    FieldsJoin(parts, ' ');
    AllFieldsOfWords(parts);
    FieldsTidy(Join(parts, ' '));
  }

  /** The cleaned text is the release and the gateway's answer when one was found, and otherwise the kept lines. */
  lemma CleanExactly(output: string)
    ensures
      var release, gateway := ReleaseOf(Fields(output)), GatewayOf(Fields(output));
      && (release != "" && gateway == None ==> Clean(output) == release)
      && (release != "" && gateway == Some(true) ==> Clean(output) == release + " gateway-ok")
      && (release != "" && gateway == Some(false) ==> Clean(output) == release + " gateway-failed")
      && (release == "" && gateway == Some(true) ==> Clean(output) == "gateway-ok")
      && (release == "" && gateway == Some(false) ==> Clean(output) == "gateway-failed")
      && (release == "" && gateway == None ==> Clean(output) == Join(KeptLines(Split(Tidy(output), '\n')), '\n'))
  {
    hide Fields, ReleaseOf, GatewayOf, KeptLines, Split, Tidy;
    FieldsTidy(output);
    var release, gateway := ReleaseOf(Fields(output)), GatewayOf(Fields(output));
    var parts := Parts(release, gateway);
    if |parts| == 2 {
      assert parts[1..] == [parts[1]];
      assert " " + "gateway-ok" == " gateway-ok" && " " + "gateway-failed" == " gateway-failed";
      assert Join(parts, ' ') == release + (" " + GatewayText(gateway));
    }
  }

  /** Both other line ends become line feeds. */
  lemma {:induction false} LineEnds(lines: seq<string>)
    requires forall l :: l in lines ==> '\r' !in l && '\n' !in l
    ensures ReplaceCRLF(JoinText(lines, "\r\n")) == Join(lines, '\n')
    ensures ReplaceCR(Join(lines, '\r')) == Join(lines, '\n')
  {
    if lines == [] {
    } else if |lines| == 1 {
      ReplaceCRNone(lines[0]);
    } else {
      assert '\r' !in lines[0];
      LineEnds(lines[1..]);
      FirstLineEnd(lines[0], JoinText(lines[1..], "\r\n"));
      FirstReturn(lines[0], Join(lines[1..], '\r'));
    }
  }

  lemma {:induction false} FirstLineEnd(line: string, rest: string)
    requires '\r' !in line
    ensures ReplaceCRLF(line + "\r\n" + rest) == line + "\n" + ReplaceCRLF(rest)
  {
    var s := line + "\r\n" + rest;
    if line == "" {
      assert s[2..] == rest;
    } else {
      assert s[1..] == line[1..] + "\r\n" + rest && line == [line[0]] + line[1..];
      FirstLineEnd(line[1..], rest);
    }
  }

  lemma {:induction false} FirstReturn(line: string, rest: string)
    requires '\r' !in line
    ensures ReplaceCR(line + ['\r'] + rest) == line + ['\n'] + ReplaceCR(rest)
  {
    var s := line + ['\r'] + rest;
    if line == "" {
      assert s[1..] == rest;
    } else {
      assert s[1..] == line[1..] + ['\r'] + rest && line == [line[0]] + line[1..];
      FirstReturn(line[1..], rest);
    }
  }

  /** Lines are kept one by one and in order: each trimmed, without blank ones and ssh's host key warnings. */
  lemma {:induction false} KeptAppend(a: seq<string>, b: seq<string>)
    ensures KeptLines(a + b) == KeptLines(a) + KeptLines(b)
  {
    hide TrimSpace, KeepLine;
    if b == [] {
      assert a + b == a && KeptLines(a) + [] == KeptLines(a);
    } else {
      assert (a + b)[..|a + b| - 1] == a + b[..|b| - 1];
      KeptAppend(a, b[..|b| - 1]);
    }
  }

  lemma KeptOne(line: string)
    ensures KeptLines([line]) ==
            if TrimSpace(line) == "" || "Warning: Permanently added " <= TrimSpace(line) then [] else [TrimSpace(line)]
  {
    hide TrimSpace;
    assert [line][..0] == [];
  }

  // ---------------------------------------------------------------------------------------------
  // Cleaning twice

  lemma {:induction false} ReplaceCRNone(s: string)
    ensures '\r' !in ReplaceCR(s)
    ensures '\r' !in s ==> ReplaceCR(s) == s && ReplaceCRLF(s) == s
  {
    if s != "" {
      ReplaceCRNone(s[1..]);
      assert s == [s[0]] + s[1..];
    }
  }

  lemma TidyAlready(s: string)
    requires Trimmed(s) && '\r' !in s
    ensures Tidy(s) == s
  {
    hide IsSpace, TrimLeft, TrimRight;
    ReplaceCRNone(s);
  }

  lemma {:induction false} JoinTrimmed(parts: seq<string>, sep: char)
    requires parts != [] && forall p :: p in parts ==> p != "" && Trimmed(p)
    ensures Join(parts, sep) != "" && Trimmed(Join(parts, sep))
  {
    hide IsSpace;
    assert parts[0] in parts;
    if |parts| > 1 {
      assert forall p :: p in parts[1..] ==> p in parts;
      JoinTrimmed(parts[1..], sep);
    }
  }

  lemma {:induction false} JoinChars(parts: seq<string>, sep: char, c: char)
    requires c != sep && forall p :: p in parts ==> c !in p
    ensures c !in Join(parts, sep)
  {
    if parts != [] {
      assert c !in parts[0];
      JoinChars(parts[1..], sep, c);
    }
  }

  lemma {:induction false} SplitChars(s: string, sep: char, c: char)
    requires c !in s
    ensures forall p :: p in Split(s, sep) ==> c !in p
  {
    if s != "" {
      SplitChars(s[1..], sep, c);
    }
  }

  lemma {:induction false} KeptChars(lines: seq<string>, c: char)
    requires forall l :: l in lines ==> c !in l
    ensures forall l :: l in KeptLines(lines) ==> c !in l
  {
    if lines != [] {
      hide IsSpace, KeepLine, TrimLeft, TrimRight;
      KeptChars(lines[..|lines| - 1], c);
      var last := lines[|lines| - 1];
      assert last in lines;
      assert c !in TrimLeft(last);
      assert c !in TrimSpace(last);
    }
  }

  lemma {:induction false} KeptTwice(lines: seq<string>)
    requires forall l :: l in lines ==> KeepLine(l) && Trimmed(l)
    ensures KeptLines(lines) == lines
  {
    if lines != [] {
      hide KeepLine, Trimmed;
      KeptTwice(lines[..|lines| - 1]);
      assert lines[|lines| - 1] in lines;
      assert lines == lines[..|lines| - 1] + [lines[|lines| - 1]];
    }
  }

  lemma CleanTwice(output: string)
    ensures Clean(Clean(output)) == Clean(output)
  {
    hide Fields, Tidy, ReleaseOf, GatewayOf, KeptLines, Split, LooksLikeKernelRelease;
    var clean := Clean(output);
    CleanKeepsAnswers(output);
    FieldsTidy(output);
    FieldsTidy(clean);
    var release, gateway := ReleaseOf(Fields(output)), GatewayOf(Fields(output));
    var parts := Parts(release, gateway);
    if parts == [] {
      var kept := KeptLines(Split(Tidy(output), '\n'));
      KeptClean(output);
      if kept == [] {
        CleanNothing();
      } else {
        SplitJoin(kept, '\n');
        KeptTwice(kept);
      }
    }
  }

  lemma KeptClean(output: string)
    ensures
      var kept := KeptLines(Split(Tidy(output), '\n'));
      Tidy(Join(kept, '\n')) == Join(kept, '\n') && forall l :: l in kept ==> '\n' !in l
  {
    var lines := Split(Tidy(output), '\n');
    ReplaceCRNone(ReplaceCRLF(TrimSpace(output)));
    assert '\r' !in Tidy(output);
    hide Tidy, KeptLines, Split, KeepLine;
    SplitChars(Tidy(output), '\n', '\r');
    KeptChars(lines, '\r');
    KeptChars(lines, '\n');
    JoinChars(KeptLines(lines), '\n', '\r');
    if KeptLines(lines) == [] {
      assert Join([], '\n') == "";
    } else {
      JoinTrimmed(KeptLines(lines), '\n');
    }
    TidyAlready(Join(KeptLines(lines), '\n'));
  }

  lemma SummaryText(release: string, gateway: Option<bool>)
    ensures
      var first := if release != "" then [] + [release] else [];
      && (gateway == None ==> JoinText(first, ", ") == release)
      && (gateway == Some(true) ==>
            JoinText(first + ["gateway OK"], ", ") == if release == "" then "gateway OK" else release + ", gateway OK")
      && (gateway == Some(false) ==>
            JoinText(first + ["gateway failed"], ", ")
            == if release == "" then "gateway failed" else release + ", gateway failed")
  {
    JoinedTexts(release, "gateway OK");
    JoinedTexts(release, "gateway failed");
    assert [] + [release] == [release] && [] + ["gateway OK"] == ["gateway OK"];
    assert [] + ["gateway failed"] == ["gateway failed"];
    hide JoinText;
    assert ", " + "gateway OK" == ", gateway OK" && ", " + "gateway failed" == ", gateway failed";
  }

  lemma JoinedTexts(a: string, b: string)
    ensures JoinText([], ", ") == "" && JoinText([a], ", ") == a && JoinText([b], ", ") == b
    ensures JoinText([a] + [b], ", ") == a + (", " + b)
  {
    assert ([a] + [b])[1..] == [b];
  }

  /** ParseKernelTestResult reads the cleaned text; its answers are those of the raw text. */
  method ParseKernelTestResult(output: string) returns (release: string, gatewayOK: Option<bool>, summary: string)
    ensures release == ReleaseOf(Fields(output)) && gatewayOK == GatewayOf(Fields(output))
    ensures gatewayOK == None ==> summary == release
    ensures gatewayOK == Some(true) ==> summary == if release == "" then "gateway OK" else release + ", gateway OK"
    ensures gatewayOK == Some(false) ==>
              summary == if release == "" then "gateway failed" else release + ", gateway failed"
  {
    hide Fields, ReleaseOf, GatewayOf, Clean, LooksLikeKernelRelease, TrimQuotes;
    var clean := CleanKernelTestOutput(output);
    CleanKeepsAnswers(output);
    release, gatewayOK := ScanTokens(Fields(clean));
    var parts: seq<string> := [];
    if release != "" {
      parts := parts + [release];
    }
    if gatewayOK.Some? {
      parts := parts + [if gatewayOK.value then "gateway OK" else "gateway failed"];
    }
    hide JoinText;
    SummaryText(release, gatewayOK);
    summary := JoinText(parts, ", ");
  }
}
