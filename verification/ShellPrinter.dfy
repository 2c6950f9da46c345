/** The command line sent over SSH for an exec request, and the POSIX shell's reading of it: section 2.2.1 (backslash),
    2.2.2 (single quotes) and 2.3 (token recognition) of the Shell Command Language of POSIX.1-2017. */
module ShellPrinter {
  import opened Model
  import opened Text

  // ---------------------------------------------------------------------------------------------
  // Requests

  datatype Request = Request(
    command: string, cwd: string, timeoutSeconds: int, env: map<string, string>, stdin: seq<bv8>)

  const MAX_STDIN_BYTES := 0x10_0000

  predicate IsLetter(c: char) {
    'a' <= c <= 'z' || 'A' <= c <= 'Z' || c == '_'
  }

  /** vmExecEnvNameRe. */
  predicate EnvName(s: string) {
    s != "" && IsLetter(s[0]) && forall c :: c in s ==> IsLetter(c) || IsDigit(c)
  }

  predicate EnvAccepted(env: map<string, string>) {
    forall k :: k in env ==> EnvName(k) && '\0' !in env[k]
  }

  function NormalizeVMExecRequest(raw: Request): Result<Request> {
    var req := raw.(command := TrimSpace(raw.command), cwd := TrimSpace(raw.cwd));
    var _ :- Need(req.command != "" && '\0' !in req.command, Invalid);
    var timed := if req.timeoutSeconds == 0 then req.(timeoutSeconds := 60) else req;
    var _ :- Need(1 <= timed.timeoutSeconds <= 900, Invalid);
    var _ :- Need(|timed.stdin| <= MAX_STDIN_BYTES, Invalid);
    var _ :- Need(EnvAccepted(timed.env), Invalid);
    Ok(timed)
  }

  /** What normalisation promises its callers. */
  predicate Normalized(req: Request) {
    req.command != "" && '\0' !in req.command && EnvAccepted(req.env)
  }

  /** What a request may hold: a command other than spaces, without NUL once trimmed; no timeout or one of 1 to 900
      seconds; at most 1 MiB of input; variables named by letters, digits and underscores, no digit first, without NUL
      in their values. */
  predicate Allowed(raw: Request) {
    && (exists c :: c in raw.command && !IsSpace(c)) && '\0' !in TrimSpace(raw.command)
    && 0 <= raw.timeoutSeconds <= 900 && |raw.stdin| <= 1048576
    && forall k :: k in raw.env ==>
         && k != "" && !('0' <= k[0] <= '9') && '\0' !in raw.env[k]
         && forall c :: c in k ==> 'a' <= c <= 'z' || 'A' <= c <= 'Z' || c == '_' || '0' <= c <= '9'
  }

  /** Exactly the allowed requests are accepted. Command and directory are trimmed, a missing timeout becomes 60
      seconds, and nothing else changes. */
  lemma NormalizeExactly(raw: Request)
    ensures
      var r := NormalizeVMExecRequest(raw);
      if !Allowed(raw) then r == Err(Invalid)
      else r == Ok(Request(TrimSpace(raw.command), TrimSpace(raw.cwd),
                           if raw.timeoutSeconds == 0 then 60 else raw.timeoutSeconds, raw.env, raw.stdin))
  {
    TrimmedAway(raw.command);
    NamesExactly(raw.env);
    hide TrimSpace, IsSpace, EnvName, EnvAccepted;
  }

  lemma TrimmedAway(s: string)
    ensures TrimSpace(s) == "" <==> forall c :: c in s ==> IsSpace(c)
  {
    hide IsSpace;
    var t := TrimLeft(s);
    assert TrimSpace(s) == TrimRight(t);
    assert t != "" ==> !IsSpace(t[0]);
    if TrimSpace(s) != "" {
      assert t[0] in s;
    }
  }

  lemma NamesExactly(env: map<string, string>)
    ensures EnvAccepted(env) <==>
            forall k :: k in env ==>
              && k != "" && !('0' <= k[0] <= '9') && '\0' !in env[k]
              && forall c :: c in k ==> 'a' <= c <= 'z' || 'A' <= c <= 'Z' || c == '_' || '0' <= c <= '9'
  {
    forall k
      ensures EnvName(k) <==>
              && k != "" && !('0' <= k[0] <= '9')
              && forall c :: c in k ==> 'a' <= c <= 'z' || 'A' <= c <= 'Z' || c == '_' || '0' <= c <= '9'
    {
      if k != "" {
        assert k[0] in k;
      }
    }
  }

  lemma NormalizeTwice(raw: Request, req: Request)
    requires NormalizeVMExecRequest(raw) == Ok(req)
    ensures Normalized(req) && NormalizeVMExecRequest(req) == Ok(req)
  {
    hide TrimSpace, EnvAccepted;
  }

  // ---------------------------------------------------------------------------------------------
  // The printer

  /** strings.ReplaceAll(s, "'", "'\\''"). */
  function ShellQuote(s: string): string {
    if s == "" then ""
    else (if s[0] == '\'' then "'\\''" else [s[0]]) + ShellQuote(s[1..])
  }

  function ShellEnv(s: string): string {
    "'" + ShellQuote(s) + "'"
  }

  predicate Ascending(keys: seq<string>) {
    forall i, j :: 0 <= i < j < |keys| ==> CompareText(keys[i], keys[j]) < 0
  }

  /** keys is the list of the names in `names` in the order of sort.Strings. */
  ghost predicate Lists(keys: seq<string>, names: set<string>) {
    Ascending(keys) && forall k :: k in keys <==> k in names
  }

  function EnvParts(keys: seq<string>, env: map<string, string>): (r: seq<string>)
    requires forall k :: k in keys ==> k in env
    ensures |r| == |keys|
  {
    seq(|keys|, i requires 0 <= i < |keys| => keys[i] + "=" + ShellEnv(env[keys[i]]))
  }

  function CommandPart(command: string, keys: seq<string>, env: map<string, string>): string
    requires forall k :: k in keys ==> k in env
  {
    var sh := "sh -lc " + ShellEnv(command);
    if keys == [] then sh else "env " + Join(EnvParts(keys, env), ' ') + " " + sh
  }

  function Printed(req: Request, keys: seq<string>): string
    requires forall k :: k in keys ==> k in req.env
  {
    (if req.cwd == "" then "" else "cd " + ShellEnv(req.cwd) + " && ") + CommandPart(req.command, keys, req.env)
  }

  function InsertText(sorted: seq<string>, x: string): (r: seq<string>)
    requires Ascending(sorted) && x !in sorted
    ensures Ascending(r)
    ensures forall k :: k in r <==> k == x || k in sorted
  {
    if sorted == [] then [x]
    else if CompareText(x, sorted[0]) < 0 then
      InsertBefore(x, sorted);
      [x] + sorted
    else
      var rest := InsertText(sorted[1..], x);
      CompareTextOrder(x, sorted[0]);
      InsertAfter(sorted, x, rest);
      [sorted[0]] + rest
  }

  lemma InsertBefore(x: string, sorted: seq<string>)
    requires Ascending(sorted) && sorted != [] && CompareText(x, sorted[0]) < 0
    ensures Ascending([x] + sorted)
  {
    hide CompareText;
    forall j | 0 < j < |sorted|
      ensures CompareText(x, sorted[j]) < 0
    {
      CompareLess(x, sorted[0], sorted[j]);
    }
  }

  lemma InsertAfter(sorted: seq<string>, x: string, rest: seq<string>)
    requires Ascending(sorted) && sorted != [] && CompareText(sorted[0], x) < 0
    requires Ascending(rest) && forall k :: k in rest ==> k == x || k in sorted[1..]
    ensures Ascending([sorted[0]] + rest)
  {
    hide CompareText;
    forall j | 0 <= j < |rest|
      ensures CompareText(sorted[0], rest[j]) < 0
    {
      assert rest[j] in rest;
      if rest[j] != x {
        var i :| 0 <= i < |sorted[1..]| && sorted[1..][i] == rest[j];
        assert sorted[i + 1] == rest[j];
      }
    }
  }

  lemma CompareLess(a: string, b: string, c: string)
    requires CompareText(a, b) < 0 && CompareText(b, c) < 0
    ensures CompareText(a, c) < 0
  {
    hide CompareText;
    CompareTextOrder(a, b);
    CompareTextOrder(b, c);
    CompareTextOrder(a, c);
    CompareTextTransitive(c, b, a);
  }

  /** The sorted listing of a set of names is unique, so the printed text does not depend on map order. */
  lemma {:induction false} ListsUnique(a: seq<string>, b: seq<string>, names: set<string>)
    requires Lists(a, names) && Lists(b, names)
    ensures a == b
    decreases |a|
  {
    hide CompareText;
    EmptyLists(a, names);
    EmptyLists(b, names);
    if a != [] {
      SameHead(a, b, names);
      TailLists(a, names);
      TailLists(b, names);
      ListsUnique(a[1..], b[1..], names - {a[0]});
      assert a == [a[0]] + a[1..] && b == [b[0]] + b[1..];
    }
  }

  lemma EmptyLists(a: seq<string>, names: set<string>)
    requires Lists(a, names)
    ensures a == [] <==> names == {}
  {
    if a != [] {
      assert a[0] in names;
    }
  }

  lemma SameHead(a: seq<string>, b: seq<string>, names: set<string>)
    requires Lists(a, names) && Lists(b, names) && a != [] && b != []
    ensures a[0] == b[0]
  {
    hide CompareText;
    assert a[0] in b && b[0] in a;
    var i :| 0 <= i < |b| && b[i] == a[0];
    var j :| 0 <= j < |a| && a[j] == b[0];
    if i != 0 {
      assert CompareText(b[0], a[0]) < 0;
      CompareTextOrder(a[0], b[0]);
    }
  }

  lemma TailLists(a: seq<string>, names: set<string>)
    requires Lists(a, names) && a != []
    ensures Lists(a[1..], names - {a[0]})
  {
    hide CompareText;
    forall k
      ensures k in a[1..] <==> k in names - {a[0]}
    {
      if k in a[1..] {
        var i :| 0 <= i < |a[1..]| && a[1..][i] == k;
        assert a[i + 1] == k;
        CompareTextOrder(a[0], k);
      }
      if k in names - {a[0]} {
        assert k in a;
        assert a == [a[0]] + a[1..];
      }
    }
  }

  /** sort.Strings on distinct names. */
  method SortStrings(names: seq<string>) returns (r: seq<string>)
    requires forall i, j :: 0 <= i < j < |names| ==> names[i] != names[j]
    ensures Ascending(r) && forall k :: k in r <==> k in names
  {
    hide CompareText;
    r := [];
    for i := 0 to |names|
      invariant Ascending(r) && forall k :: k in r <==> k in names[..i]
    {
      assert names[..i + 1] == names[..i] + [names[i]];
      r := InsertText(r, names[i]);
    }
    assert names[..|names|] == names;
  }

  /** buildRemoteExecCommand. `left` stands for Go's unordered iteration over the map. */
  method BuildRemoteExecCommand(req: Request) returns (text: string)
    ensures exists keys :: Lists(keys, req.env.Keys) && text == Printed(req, keys)
  {
    hide CompareText, ShellEnv, Ascending, EnvParts;
    var parts: seq<string> := [];
    if req.cwd != "" {
      parts := parts + ["cd " + ShellEnv(req.cwd)];
    }
    var envKeys := CollectKeys(req.env);
    envKeys := SortStrings(envKeys);
    var envParts: seq<string> := [];
    for i := 0 to |envKeys|
      invariant envParts == EnvParts(envKeys[..i], req.env)
    {
      var key := envKeys[i];
      assert key in envKeys && envKeys[..i + 1] == envKeys[..i] + [key];
      EnvPartsSnoc(envKeys[..i], key, req.env);
      envParts := envParts + [key + "=" + ShellEnv(req.env[key])];
    }
    assert envKeys[..|envKeys|] == envKeys;
    var command := "sh -lc " + ShellEnv(req.command);
    if |envParts| > 0 {
      command := "env " + Join(envParts, ' ') + " " + command;
    }
    assert command == CommandPart(req.command, envKeys, req.env);
    ghost var first := parts;
    parts := parts + [command];
    text := JoinText(parts, " && ");
    if first != [] {
      assert parts[1..] == [command];
      assert JoinText([command], " && ") == command;
    }
    assert text == Printed(req, envKeys);
  }

  lemma EnvPartsSnoc(keys: seq<string>, key: string, env: map<string, string>)
    requires key in env && forall k :: k in keys ==> k in env
    ensures EnvParts(keys + [key], env) == EnvParts(keys, env) + [key + "=" + ShellEnv(env[key])]
  {
  }

  method CollectKeys(env: map<string, string>) returns (keys: seq<string>)
    ensures forall i, j :: 0 <= i < j < |keys| ==> keys[i] != keys[j]
    ensures forall k :: k in keys <==> k in env
  {
    keys := [];
    var left := env.Keys;
    while left != {}
      invariant left <= env.Keys
      invariant forall k :: k in keys <==> k in env && k !in left
      invariant forall i, j :: 0 <= i < j < |keys| ==> keys[i] != keys[j]
    {
      var key :| key in left;
      left := left - {key};
      keys := keys + [key];
    }
  }

  // ---------------------------------------------------------------------------------------------
  // The shell's token recognition

  datatype Token = Word(text: string) | Operator(text: string) | NewLine

  predicate IsBlank(c: char) {
    c == ' ' || c == '\t'
  }

  predicate IsOperatorChar(c: char) {
    c in "&|;<>()"
  }

  /** Characters whose meaning section 2.3 leaves to expansions, comments or double quotes. */
  predicate IsExpansionChar(c: char) {
    c in "$`\"*?[#~"
  }

  predicate IsPlain(c: char) {
    c != '\'' && c != '\\' && !IsBlank(c) && c != '\n' && !IsOperatorChar(c) && !IsExpansionChar(c)
  }

  /** The longest operator at the start of s. */
  function OperatorLength(s: string): (n: nat)
    requires s != "" && IsOperatorChar(s[0])
    ensures 1 <= n <= |s|
  {
    if HasPrefix(s, "<<-") then 3
    else if exists op :: op in ["&&", "||", ";;", "<<", ">>", "<&", ">&", "<>", ">|"] && HasPrefix(s, op) then 2
    else 1
  }

  function Flush(word: Option<string>): seq<Token> {
    if word.Some? then [Word(word.value)] else []
  }

  function Chars(word: Option<string>): string {
    if word.Some? then word.value else ""
  }

  function Emit(tokens: seq<Token>, rest: Option<seq<Token>>): Option<seq<Token>> {
    if rest.Some? then Some(tokens + rest.value) else None
  }

  /** Token recognition with quote removal; `word` is the word under construction. None: an unterminated quote, a
      backslash at the end, or a character that starts an expansion, a comment or a double-quoted string. */
  function Scan(s: string, word: Option<string>): Option<seq<Token>>
    decreases |s|
  {
    if s == "" then Some(Flush(word))
    else if s[0] == '\'' then
      var i := IndexOf(s[1..], '\'');
      if i == |s| - 1 then None else Scan(s[i + 2..], Some(Chars(word) + s[1..][..i]))
    else if s[0] == '\\' then
      if |s| == 1 then None
      else if s[1] == '\n' then Scan(s[2..], word)
      else Scan(s[2..], Some(Chars(word) + [s[1]]))
    else if IsBlank(s[0]) then Emit(Flush(word), Scan(s[1..], None))
    else if s[0] == '\n' then Emit(Flush(word) + [NewLine], Scan(s[1..], None))
    else if IsOperatorChar(s[0]) then
      Emit(Flush(word) + [Operator(s[..OperatorLength(s)])], Scan(s[OperatorLength(s)..], None))
    else if IsExpansionChar(s[0]) then None
    else Scan(s[1..], Some(Chars(word) + [s[0]]))
  }

  /** A command string cannot carry a NUL to the shell. */
  function Tokenize(s: string): Option<seq<Token>> {
    if '\0' in s then None else Scan(s, None)
  }

  /** Quote-free text is left alone. */
  lemma {:induction false} QuoteFree(p: string, rest: string)
    requires '\'' !in p
    ensures ShellQuote(p + rest) == p + ShellQuote(rest)
  {
    if p == "" {
      assert p + rest == rest;
    } else {
      assert (p + rest)[1..] == p[1..] + rest;
      QuoteFree(p[1..], rest);
      assert p == [p[0]] + p[1..];
    }
  }

  /** Quoting closes the quotes before a quote, escapes it, and opens them again. */
  lemma QuotedSplit(p: string, q: string)
    requires '\'' !in p
    ensures ShellEnv(p + "'" + q) == "'" + p + "'" + ("\\'" + ShellEnv(q))
  {
    assert p + "'" + q == p + ("'" + q) && ("'" + q)[1..] == q;
    QuoteFree(p, "'" + q);
    assert ShellQuote("'" + q) == "'\\''" + ShellQuote(q);
  }

  lemma QuotedWhole(p: string)
    requires '\'' !in p
    ensures ShellEnv(p) == "'" + p + "'"
  {
    QuoteFree(p, "");
    assert p + "" == p;
  }

  lemma ScanSection(p: string, rest: string, word: Option<string>)
    requires '\'' !in p
    ensures Scan("'" + p + "'" + rest, word) == Scan(rest, Some(Chars(word) + p))
  {
    hide Flush, Chars, Emit, IndexOf, OperatorLength;
    var s := "'" + p + "'" + rest;
    assert s[1..] == p + "'" + rest;
    IndexAfter(p, '\'', rest);
    assert s[1..][..|p|] == p && s[|p| + 2..] == rest;
  }

  /** The shell reads a quoted value back as the value, whatever its characters. */
  lemma {:induction false} ScanQuoted(v: string, rest: string, word: Option<string>)
    ensures Scan(ShellEnv(v) + rest, word) == Scan(rest, Some(Chars(word) + v))
    decreases |v|
  {
    hide Scan, IndexOf, ShellEnv;
    var i := IndexOf(v, '\'');
    var p := v[..i];
    if i == |v| {
      QuotedWhole(v);
      ScanSection(v, rest, word);
    } else {
      var q := v[i + 1..];
      assert v == p + "'" + q;
      QuotedSplit(p, q);
      var escaped := "\\'" + (ShellEnv(q) + rest);
      assert ShellEnv(v) + rest == "'" + p + "'" + escaped;
      ScanSection(p, escaped, word);
      ScanBackslash(ShellEnv(q) + rest, Some(Chars(word) + p));
      ScanQuoted(q, rest, Some(Chars(word) + p + "'"));
      assert Chars(word) + p + "'" + q == Chars(word) + v;
    }
  }

  lemma ScanBackslash(rest: string, word: Option<string>)
    ensures Scan("\\'" + rest, word) == Scan(rest, Some(Chars(word) + "'"))
  {
    var s := "\\'" + rest;
    assert s[2..] == rest && s[0] == '\\' && s[1] == '\'';
  }

  lemma {:induction false} ScanPlain(p: string, rest: string, word: Option<string>)
    requires p != "" && forall c :: c in p ==> IsPlain(c)
    ensures Scan(p + rest, word) == Scan(rest, Some(Chars(word) + p))
  {
    var s := p + rest;
    assert IsPlain(p[0]);
    assert s[1..] == p[1..] + rest;
    var w := Some(Chars(word) + [p[0]]);
    assert Scan(s, word) == Scan(s[1..], w);
    if |p| > 1 {
      ScanPlain(p[1..], rest, w);
      assert Chars(w) + p[1..] == Chars(word) + p;
    } else {
      assert p[1..] + rest == rest && [p[0]] == p;
    }
  }

  lemma ScanBlank(rest: string, word: Option<string>)
    ensures Scan(" " + rest, word) == Emit(Flush(word), Scan(rest, None))
  {
    assert (" " + rest)[1..] == rest;
  }

  lemma ScanAnd(rest: string)
    ensures Scan("&& " + rest, None) == Emit([Operator("&&")], Scan(rest, None))
  {
    var s := "&& " + rest;
    assert HasPrefix(s, "&&") && !HasPrefix(s, "<<-") && "&&" in ["&&", "||", ";;", "<<", ">>", "<&", ">&", "<>", ">|"];
    assert OperatorLength(s) == 2;
    assert s[..2] == "&&" && s[2..] == " " + rest;
    assert Scan(s, None) == Emit(Flush(None) + [Operator("&&")], Scan(" " + rest, None));
    ScanBlank(rest, None);
    assert Flush(None) + [Operator("&&")] == [Operator("&&")] == [Operator("&&")] + Flush(None);
    EmitTwice([Operator("&&")], Flush(None), Scan(rest, None));
  }

  /** A plain word followed by a blank. */
  lemma ScanWord(p: string, rest: string)
    requires p != "" && forall c :: c in p ==> IsPlain(c)
    ensures Scan(p + " " + rest, None) == Emit([Word(p)], Scan(rest, None))
  {
    hide Scan, IsPlain;
    ScanPlain(p, " " + rest, None);
    assert p + " " + rest == p + (" " + rest) && "" + p == p;
    ScanBlank(rest, Some(p));
  }

  // ---------------------------------------------------------------------------------------------
  // The printed command as tokens

  function EnvWord(key: string, value: string): Token {
    Word(key + "=" + value)
  }

  function EnvWords(keys: seq<string>, env: map<string, string>): (r: seq<Token>)
    requires forall k :: k in keys ==> k in env
    ensures |r| == |keys|
  {
    seq(|keys|, i requires 0 <= i < |keys| => EnvWord(keys[i], env[keys[i]]))
  }

  function Login(command: string): seq<Token> {
    [Word("sh"), Word("-lc"), Word(command)]
  }

  function CommandMeaning(command: string, keys: seq<string>, env: map<string, string>): seq<Token>
    requires forall k :: k in keys ==> k in env
  {
    if keys == [] then Login(command) else [Word("env")] + EnvWords(keys, env) + Login(command)
  }

  function ChangeDirectory(cwd: string): seq<Token> {
    [Word("cd"), Word(cwd), Operator("&&")]
  }

  /** What the request means: change directory, then the command under the named variables. */
  function Meaning(req: Request, keys: seq<string>): seq<Token>
    requires forall k :: k in keys ==> k in req.env
  {
    var command := CommandMeaning(req.command, keys, req.env);
    if req.cwd == "" then command else ChangeDirectory(req.cwd) + command
  }

  lemma NamePlain(key: string)
    requires EnvName(key)
    ensures forall c :: c in key + "=" ==> IsPlain(c)
    ensures '=' !in key && '\0' !in key
  {
  }

  lemma ScanEnvWord(key: string, value: string, rest: string)
    requires EnvName(key)
    ensures Scan(key + "=" + ShellEnv(value) + " " + rest, None) == Emit([EnvWord(key, value)], Scan(rest, None))
  {
    hide Scan, ShellEnv, IsPlain, EnvName;
    NamePlain(key);
    var p := key + "=";
    assert p + ShellEnv(value) + " " + rest == p + (ShellEnv(value) + (" " + rest));
    ScanPlain(p, ShellEnv(value) + (" " + rest), None);
    assert "" + p == p;
    ScanQuoted(value, " " + rest, Some(p));
    ScanBlank(rest, Some(p + value));
  }

  lemma {:induction false} ScanEnvWords(keys: seq<string>, env: map<string, string>, rest: string)
    requires keys != [] && forall k :: k in keys ==> k in env && EnvName(k)
    ensures Scan(Join(EnvParts(keys, env), ' ') + " " + rest, None) == Emit(EnvWords(keys, env), Scan(rest, None))
  {
    hide Scan, ShellEnv, EnvName;
    var parts := EnvParts(keys, env);
    assert keys[0] in keys;
    var first := keys[0] + "=" + ShellEnv(env[keys[0]]);
    if |keys| == 1 {
      ScanEnvWord(keys[0], env[keys[0]], rest);
      assert EnvWords(keys, env) == [EnvWord(keys[0], env[keys[0]])];
    } else {
      assert parts[1..] == EnvParts(keys[1..], env);
      var tail := Join(EnvParts(keys[1..], env), ' ') + " " + rest;
      assert Join(parts, ' ') + " " + rest == first + " " + tail;
      ScanEnvWord(keys[0], env[keys[0]], tail);
      ScanEnvWords(keys[1..], env, rest);
      assert EnvWords(keys, env) == [EnvWord(keys[0], env[keys[0]])] + EnvWords(keys[1..], env);
      EmitTwice([EnvWord(keys[0], env[keys[0]])], EnvWords(keys[1..], env), Scan(rest, None));
    }
  }

  lemma EmitTwice(a: seq<Token>, b: seq<Token>, rest: Option<seq<Token>>)
    ensures Emit(a, Emit(b, rest)) == Emit(a + b, rest)
  {
    if rest.Some? {
      assert a + (b + rest.value) == a + b + rest.value;
    }
  }

  lemma ScanEnd(word: Option<string>)
    ensures Scan("", word) == Some(Flush(word))
  {
  }

  lemma Keywords()
    ensures forall c :: c in "cd" ==> IsPlain(c)
    ensures forall c :: c in "env" ==> IsPlain(c)
    ensures forall c :: c in "sh" ==> IsPlain(c)
    ensures forall c :: c in "-lc" ==> IsPlain(c)
  {
  }

  lemma ScanLogin(command: string)
    ensures Scan("sh -lc " + ShellEnv(command), None) == Some(Login(command))
  {
    hide ShellEnv, Scan, IsPlain;
    Keywords();
    var quoted := ShellEnv(command);
    ScanWord("sh", "-lc " + quoted);
    ScanWord("-lc", quoted);
    ScanQuoted(command, "", None);
    assert quoted + "" == quoted && "" + command == command;
    assert "sh -lc " + quoted == "sh" + " " + ("-lc " + quoted);
    assert "-lc " + quoted == "-lc" + " " + quoted;
    ScanEnd(Some(command));
    assert [Word("sh")] + ([Word("-lc")] + [Word(command)]) == [Word("sh"), Word("-lc"), Word(command)];
  }

  lemma ScanCommandPart(req: Request, keys: seq<string>)
    requires Normalized(req) && forall k :: k in keys ==> k in req.env
    ensures Scan(CommandPart(req.command, keys, req.env), None) == Some(CommandMeaning(req.command, keys, req.env))
  {
    hide Scan, ShellEnv, EnvName, EnvParts, EnvWords, IsPlain, Login, Join;
    ScanLogin(req.command);
    if keys != [] {
      var sh := "sh -lc " + ShellEnv(req.command);
      var envs := Join(EnvParts(keys, req.env), ' ');
      assert CommandPart(req.command, keys, req.env) == "env" + " " + (envs + " " + sh);
      Keywords();
      ScanWord("env", envs + " " + sh);
      ScanEnvWords(keys, req.env, sh);
      EmitTwice([Word("env")], EnvWords(keys, req.env), Scan(sh, None));
    }
  }

  lemma ScanChangeDirectory(cwd: string, part: string)
    ensures Scan("cd " + ShellEnv(cwd) + " && " + part, None) == Emit(ChangeDirectory(cwd), Scan(part, None))
  {
    hide Scan, ShellEnv, Emit, IsPlain;
    Keywords();
    var andPart := "&& " + part;
    assert "cd " + ShellEnv(cwd) + " && " + part == "cd" + " " + (ShellEnv(cwd) + (" " + andPart));
    ScanWord("cd", ShellEnv(cwd) + (" " + andPart));
    ScanQuoted(cwd, " " + andPart, None);
    assert "" + cwd == cwd;
    ScanBlank(andPart, Some(cwd));
    ScanAnd(part);
    EmitTwice([Word("cd")], [Word(cwd)], Scan(andPart, None));
    EmitTwice([Word("cd")] + [Word(cwd)], [Operator("&&")], Scan(part, None));
    assert ChangeDirectory(cwd) == [Word("cd")] + [Word(cwd)] + [Operator("&&")];
  }

  /** The shell reads the printed command as exactly the meaning of the request. */
  lemma ScanPrinted(req: Request, keys: seq<string>)
    requires Normalized(req) && forall k :: k in keys ==> k in req.env
    ensures Scan(Printed(req, keys), None) == Some(Meaning(req, keys))
  {
    hide Scan, ShellEnv, CommandPart, EnvName, CommandMeaning, ChangeDirectory;
    ScanCommandPart(req, keys);
    var part := CommandPart(req.command, keys, req.env);
    if req.cwd == "" {
      assert Printed(req, keys) == part;
    } else {
      ScanChangeDirectory(req.cwd, part);
    }
  }

  lemma {:induction false} QuoteNul(s: string)
    ensures '\0' in ShellQuote(s) <==> '\0' in s
  {
    if s != "" {
      QuoteNul(s[1..]);
      assert s == [s[0]] + s[1..];
    }
  }

  lemma {:induction false} JoinNul(parts: seq<string>)
    requires forall p :: p in parts ==> '\0' !in p
    ensures '\0' !in Join(parts, ' ')
  {
    if parts != [] {
      assert '\0' !in parts[0];
      JoinNul(parts[1..]);
    }
  }

  lemma EnvPartsNul(keys: seq<string>, env: map<string, string>)
    requires forall k :: k in keys ==> k in env && EnvName(k) && '\0' !in env[k]
    ensures '\0' !in Join(EnvParts(keys, env), ' ')
  {
    hide EnvName, Join;
    var parts := EnvParts(keys, env);
    forall p | p in parts
      ensures '\0' !in p
    {
      var i :| 0 <= i < |parts| && parts[i] == p;
      assert keys[i] in keys;
      NamePlain(keys[i]);
      QuoteNul(env[keys[i]]);
    }
    JoinNul(parts);
  }

  lemma PrintedNul(req: Request, keys: seq<string>)
    requires Normalized(req) && forall k :: k in keys ==> k in req.env
    ensures '\0' in Printed(req, keys) <==> '\0' in req.cwd
  {
    hide EnvName, EnvParts, ShellQuote, Join;
    QuoteNul(req.cwd);
    QuoteNul(req.command);
    EnvPartsNul(keys, req.env);
  }

  /** The command arrives at the shell, and is read as the meaning of the request, exactly when the working directory
      holds no NUL: normalisation looks for NUL in the command and the variables only. */
  lemma TokenizePrinted(req: Request, keys: seq<string>)
    requires Normalized(req) && forall k :: k in keys ==> k in req.env
    ensures Tokenize(Printed(req, keys)) == if '\0' in req.cwd then None else Some(Meaning(req, keys))
  {
    hide Printed, Scan, Meaning, EnvName;
    ScanPrinted(req, keys);
    PrintedNul(req, keys);
  }

  /** The same, token by token: optional cd, directory and &&; optional env and one assignment for each variable; and
      sh, -lc and the command as one word. */
  lemma TokensExactly(req: Request, keys: seq<string>)
    requires Normalized(req) && '\0' !in req.cwd && Lists(keys, req.env.Keys)
    ensures exists assignments: seq<Token> ::
              && |assignments| == |keys|
              && (forall i :: 0 <= i < |keys| ==> assignments[i] == Word(keys[i] + "=" + req.env[keys[i]]))
              && Tokenize(Printed(req, keys)) == Some(
                   (if req.cwd != "" then [Word("cd"), Word(req.cwd), Operator("&&")] else [])
                   + ((if req.env != map[] then [Word("env")] + assignments else [])
                      + [Word("sh"), Word("-lc"), Word(req.command)]))
  {
    hide Printed, Tokenize, EnvName, Ascending, CompareText;
    TokenizePrinted(req, keys);
    var assignments := EnvWords(keys, req.env);
    EmptyLists(keys, req.env.Keys);
    assert req.env.Keys == {} <==> req.env == map[];
    assert [] + Login(req.command) == Login(req.command);
    assert [] + CommandMeaning(req.command, keys, req.env) == CommandMeaning(req.command, keys, req.env);
  }

  /** A request that normalisation lets through and that cannot reach the shell. */
  lemma NulInDirectory()
    ensures
      var req := Request("id", "/tmp\0", 60, map[], []);
      NormalizeVMExecRequest(req) == Ok(req) && Lists([], req.env.Keys) && Tokenize(Printed(req, [])) == None
  {
    var req := Request("id", "/tmp\0", 60, map[], []);
    hide Printed, TrimSpace, Tokenize, Meaning, EnvName, CompareText;
    assert Trimmed("id") && Trimmed("/tmp\0") && '\0' !in "id";
    assert EnvAccepted(map[]);
    assert req.cwd[4] == '\0';
    TokenizePrinted(req, []);
  }

  // ---------------------------------------------------------------------------------------------
  // Reading the request back

  function ReadEnv(words: seq<Token>): Option<map<string, string>> {
    if words == [] then Some(map[])
    else
      var rest := ReadEnv(words[1..]);
      if rest.None? || !words[0].Word? then None
      else
        var text := words[0].text;
        var i := IndexOf(text, '=');
        if i == |text| then None else Some(rest.value[text[..i] := text[i + 1..]])
  }

  function ReadCommand(tokens: seq<Token>): Option<(map<string, string>, string)> {
    if |tokens| < 3 || !tokens[|tokens| - 1].Word? then None
    else
      var command := tokens[|tokens| - 1].text;
      if |tokens| == 3 || tokens[0] != Word("env") then Some((map[], command))
      else
        var env := ReadEnv(tokens[1..|tokens| - 3]);
        if env.None? then None else Some((env.value, command))
  }

  /** Working directory, environment and command of a token list that was printed from a request. */
  function ReadBack(tokens: seq<Token>): Option<(string, map<string, string>, string)> {
    var moved := |tokens| >= 3 && tokens[0] == Word("cd") && tokens[1].Word?;
    var rest := ReadCommand(if moved then tokens[3..] else tokens);
    if rest.None? then None else Some((if moved then tokens[1].text else "", rest.value.0, rest.value.1))
  }

  lemma {:induction false} ReadEnvWords(keys: seq<string>, env: map<string, string>)
    requires forall k :: k in keys ==> k in env && EnvName(k)
    ensures ReadEnv(EnvWords(keys, env)) == Some(map k | k in keys :: env[k])
  {
    hide EnvName;
    if keys != [] {
      var words := EnvWords(keys, env);
      assert words[1..] == EnvWords(keys[1..], env);
      ReadEnvWords(keys[1..], env);
      assert keys[0] in keys;
      NamePlain(keys[0]);
      var text := keys[0] + "=" + env[keys[0]];
      IndexAfter(keys[0], '=', env[keys[0]]);
      assert text[..|keys[0]|] == keys[0] && text[|keys[0]| + 1..] == env[keys[0]];
      assert words[0] == Word(text);
      var rest := map k | k in keys[1..] :: env[k];
      assert forall k :: k in keys <==> k == keys[0] || k in keys[1..];
      assert rest[keys[0] := env[keys[0]]] == map k | k in keys :: env[k];
    }
  }

  lemma ReadCommandMeaning(command: string, keys: seq<string>, env: map<string, string>)
    requires EnvAccepted(env) && forall k :: k in keys <==> k in env
    ensures ReadCommand(CommandMeaning(command, keys, env)) == Some((env, command))
  {
    hide EnvName, ReadEnv;
    var tokens := CommandMeaning(command, keys, env);
    if keys == [] {
      assert env == map[];
    } else {
      assert tokens[1..|tokens| - 3] == EnvWords(keys, env);
      ReadEnvWords(keys, env);
      assert env == map k | k in keys :: env[k];
    }
  }

  lemma ReadMeaning(req: Request, keys: seq<string>)
    requires Normalized(req) && Lists(keys, req.env.Keys)
    ensures ReadBack(Meaning(req, keys)) == Some((req.cwd, req.env, req.command))
  {
    hide EnvName, EnvAccepted, ReadCommand, Ascending;
    ReadCommandMeaning(req.command, keys, req.env);
    var tokens := CommandMeaning(req.command, keys, req.env);
    if req.cwd == "" {
      assert tokens[0] == Word("sh") || tokens[0] == Word("env");
    } else {
      hide CommandMeaning;
      assert (ChangeDirectory(req.cwd) + tokens)[3..] == tokens;
    }
  }

  /** Two normalised requests with the same printed text ask for the same command, directory and variables. */
  lemma PrinterInjective(a: Request, aKeys: seq<string>, b: Request, bKeys: seq<string>)
    requires Normalized(a) && Lists(aKeys, a.env.Keys)
    requires Normalized(b) && Lists(bKeys, b.env.Keys)
    requires Printed(a, aKeys) == Printed(b, bKeys)
    ensures a.cwd == b.cwd && a.env == b.env && a.command == b.command
  {
    hide Printed, Scan, Meaning, ReadBack, EnvName, Ascending;
    ScanPrinted(a, aKeys);
    ScanPrinted(b, bKeys);
    ReadMeaning(a, aKeys);
    ReadMeaning(b, bKeys);
  }
}
