/** Running a generated wrapper under sh executes exactly the planned command. */
module WrapperRuns {
  import opened Wrappers
  import opened Text
  import opened Shell
  import opened ExecWrapper

  // ---------- words are told apart ----------

  lemma BareInjective(a: string, b: string)
    ensures Bare(a) == Bare(b) <==> a == b
  {
    if Bare(a) == Bare(b) {
      var x, y := PlainAll(a), PlainAll(b);
      forall i | 0 <= i < |a| ensures a[i] == b[i] {
        assert x[i] == y[i];
      }
    }
  }

  lemma BareIsNotQuoted(a: string, v: string)
    requires a != ""
    ensures Bare(a) != Word(QuotedAll(v))
  {
    assert PlainAll(a)[0].Plain?;
    assert |v| > 0 ==> QuotedAll(v)[0].Quoted?;
  }

  lemma FindAt(ts: seq<Token>, t: Token, n: nat)
    requires n < |ts| && ts[n] == t && forall i :: 0 <= i < n ==> ts[i] != t
    ensures Find(ts, t) == n
  {
  }

  lemma EndAt(ts: seq<Token>, n: nat)
    requires n < |ts| && ts[n] in {Newline, Semicolon, DoubleSemicolon}
    requires forall i :: 0 <= i < n ==> ts[i] !in {Newline, Semicolon, DoubleSemicolon}
    ensures EndOfCommand(ts) == n
  {
  }

  // ---------- expansion of the words the wrappers use ----------

  lemma {:induction false} ExpandPlain(s: string, env: Env)
    requires '*' !in s
    ensures ExpandPieces(PlainAll(s), env) == Some(s)
  {
    if s == "" {
    } else {
      assert PlainAll(s)[1..] == PlainAll(s[1..]);
      ExpandPlain(s[1..], env);
      assert [s[0]] + s[1..] == s;
    }
  }

  lemma {:induction false} ExpandQuoted(s: string, env: Env)
    ensures ExpandPieces(QuotedAll(s), env) == Some(s)
  {
    if s == "" {
    } else {
      assert QuotedAll(s)[1..] == QuotedAll(s[1..]);
      ExpandQuoted(s[1..], env);
      assert [s[0]] + s[1..] == s;
    }
  }

  /** What a part stands for once the script runs: a positional parameter takes only its first digit. */
  function PartValue(p: Part, args: seq<string>): string
    requires p.Single? || (p.Numbered? && p.k > 0)
  {
    match p
    case Single(v) => v
    case Numbered(k) =>
      LeadingDigit(k);
      var digits := Decimal(k);
      var d := digits[0] as nat - '0' as nat;
      (if d <= |args| then args[d - 1] else "") + digits[1..]
  }

  lemma ExpandPart(p: Part, env: Env)
    requires p.Single? || (p.Numbered? && p.k > 0)
    ensures ValidPart(p)
    ensures ExpandWord(Word(PartPieces(p)), env) == Some([PartValue(p, env.args)])
  {
    hide Decimal;
    match p
    case Single(v) => ExpandQuoted(v, env);
    case Numbered(k) =>
      LeadingDigit(k);
      ExpandNumbered(Decimal(k), env);
  }

  lemma ExpandNumbered(digits: string, env: Env)
    requires digits != "" && '1' <= digits[0] <= '9'
    ensures ExpandWord(Word(NumberedPieces(digits)), env) == Some([
      (var d := digits[0] as nat - '0' as nat; if d <= |env.args| then env.args[d - 1] else "") + digits[1..]])
  {
    var pieces := NumberedPieces(digits);
    assert pieces[1..] == QuotedAll(digits[1..]);
    ExpandQuoted(digits[1..], env);
  }

  predicate Runnable(parts: seq<Part>) {
    forall i :: 0 <= i < |parts| ==> parts[i].Single? || (parts[i].Numbered? && parts[i].k > 0)
  }

  function PartValues(parts: seq<Part>, args: seq<string>): (r: seq<string>)
    requires Runnable(parts)
    ensures |r| == |parts|
  {
    seq(|parts|, i requires 0 <= i < |parts| => PartValue(parts[i], args))
  }

  lemma {:induction false} ExpandParts(parts: seq<Part>, env: Env)
    requires Runnable(parts) && ValidParts(parts)
    ensures ExpandWords(WordTokens(parts), env) == Some(PartValues(parts, env.args))
  {
    hide PartValue, PartPieces, ExpandWord, ValidPart;
    if parts != [] {
      assert WordTokens(parts)[1..] == WordTokens(parts[1..]);
      assert PartValues(parts, env.args)[1..] == PartValues(parts[1..], env.args);
      ExpandPart(parts[0], env);
      ExpandParts(parts[1..], env);
      assert [PartValue(parts[0], env.args)] + PartValues(parts[1..], env.args) == PartValues(parts, env.args);
    }
  }

  // ---------- single commands ----------

  lemma RunSkip(t: Token, rest: seq<Token>, env: Env)
    requires t in {Newline, Semicolon, Bare("fi")}
    ensures Run([t] + rest, env) == Run(rest, env)
  {
    assert ([t] + rest)[1..] == rest;
  }

  lemma KeywordsDiffer()
    ensures Bare("echo") !in {Newline, Semicolon, Bare("fi"), Bare("if"), Bare("for"), Bare("case")}
    ensures Bare("exit") !in {Newline, Semicolon, Bare("fi"), Bare("if"), Bare("for"), Bare("case"), Bare("echo")}
    ensures Bare("exec") !in {Newline, Semicolon, Bare("fi"), Bare("if"), Bare("for"), Bare("case"), Bare("echo"), Bare("exit")}
    ensures Bare("case") !in {Newline, Semicolon, Bare("fi"), Bare("if"), Bare("for")}
    ensures Bare("for") !in {Newline, Semicolon, Bare("fi"), Bare("if")}
    ensures Bare("if") !in {Newline, Semicolon, Bare("fi")}
  {
    forall a, b ensures Bare(a) == Bare(b) <==> a == b {
      BareInjective(a, b);
    }
  }

  lemma RunEcho(message: string, end: Token, rest: seq<Token>, env: Env)
    requires end in {Newline, Semicolon}
    ensures Run([Bare("echo"), Word(QuotedAll(message)), DuplicateTo, Bare("2"), end] + rest, env) == Run(rest, env)
  {
    KeywordsDiffer();
    var ts := [Bare("echo"), Word(QuotedAll(message)), DuplicateTo, Bare("2"), end] + rest;
    EndAt(ts, 4);
    assert ts[4..] == [end] + rest;
    RunSkip(end, rest, env);
  }

  lemma RunExit(rest: seq<Token>, env: Env)
    ensures Run([Bare("exit"), Bare("64")] + rest, env) == Exit(64)
  {
    KeywordsDiffer();
    ExpandPlain("64", env);
    assert "64"[..1] == "6" && "6"[..0] == "";
    assert ParseNumeral("6", Ten) == 6;
    assert ParseNumeral("64", Ten) == 64;
  }

  // ---------- the count guard ----------

  lemma TestCount(n: nat, env: Env)
    ensures Test([Bare("["), Word([Count]), Bare("-ne"), Bare(Decimal(n)), Bare("]")], env) == Some(|env.args| != n)
  {
    hide Decimal;
    var count := Decimal(|env.args|);
    NumeralHasNoStar(n);
    ExpandPlain("[", env);
    ExpandPlain("-ne", env);
    ExpandPlain(Decimal(n), env);
    ExpandPlain("]", env);
    NotAll("[");
    NotAll("-ne");
    NotAll(Decimal(n));
    NotAll("]");
    ExpandOne(Count, env);
    var e: seq<Token> := [];
    ConsWord(Bare("]"), "]", e, [], env);
    ConsWord(Bare(Decimal(n)), Decimal(n), [Bare("]")] + e, ["]"] + [], env);
    ConsWord(Bare("-ne"), "-ne", [Bare(Decimal(n))] + ([Bare("]")] + e), [Decimal(n)] + (["]"] + []), env);
    ConsWord(Word([Count]), count, [Bare("-ne")] + ([Bare(Decimal(n))] + ([Bare("]")] + e)),
             ["-ne"] + ([Decimal(n)] + (["]"] + [])), env);
    ConsWord(Bare("["), "[", [Word([Count])] + ([Bare("-ne")] + ([Bare(Decimal(n))] + ([Bare("]")] + e))),
             [count] + (["-ne"] + ([Decimal(n)] + (["]"] + []))), env);
    assert [Bare("["), Word([Count]), Bare("-ne"), Bare(Decimal(n)), Bare("]")]
        == [Bare("[")] + ([Word([Count])] + ([Bare("-ne")] + ([Bare(Decimal(n))] + ([Bare("]")] + e))));
    DecimalParses(n);
    DecimalParses(|env.args|);
  }

  lemma ExpandOne(p: Piece, env: Env)
    requires ExpandPiece(p, env).Some?
    ensures ExpandPieces([p], env) == ExpandPiece(p, env)
  {
    assert [p][1..] == [];
    assert ExpandPieces([], env) == Some("");
    assert ExpandPiece(p, env).value + "" == ExpandPiece(p, env).value;
  }

  lemma ConsWord(w: Token, v: string, ws: seq<Token>, vs: seq<string>, env: Env)
    requires w.Word? && w.pieces != [All] && ExpandPieces(w.pieces, env) == Some(v) && ExpandWords(ws, env) == Some(vs)
    ensures ExpandWords([w] + ws, env) == Some([v] + vs)
  {
    assert ([w] + ws)[1..] == ws;
  }

  lemma DecimalParses(n: nat)
    ensures IsNumeral(Decimal(n), Ten) && ParseNumeral(Decimal(n), Ten) == n
  {
    ParseOfNumeral(n, Ten);
  }

  lemma NumeralHasNoStar(n: nat)
    ensures '*' !in Decimal(n) && Decimal(n) != "" && forall i :: 0 <= i < |Decimal(n)| ==> '0' <= Decimal(n)[i] <= '9'
  {
    if n > 0 {
      LeadingDigit(n);
    }
  }

  lemma NotAll(s: string)
    ensures PlainAll(s) != [All]
  {
    assert s != "" ==> PlainAll(s)[0].Plain?;
  }

  /** The guard lets the script go on exactly when the number of arguments is right. */
  lemma RunGuard(n: nat, usage: string, rest: seq<Token>, env: Env)
    ensures Run(GuardTokens(Decimal(n), usage) + rest, env) == if |env.args| == n then Run(rest, env) else Exit(64)
  {
    hide Run, Test, Decimal;
    var count := Decimal(n);
    var ts := GuardTokens(count, usage) + rest;
    GuardPositions(n, usage, rest);
    assert ts[1..6] == [Bare("["), Word([Count]), Bare("-ne"), Bare(count), Bare("]")];
    TestCount(n, env);
    RunIfParts(ts, 6, 17, env);
    if |env.args| == n {
      assert ts[18..] == [Newline] + rest;
      RunSkip(Newline, rest, env);
    } else {
      assert ts[8..] == UsageTokens(usage, rest);
      RunUsage(usage, rest, env);
    }
  }

  function UsageTokens(usage: string, rest: seq<Token>): seq<Token> {
    [Newline] + ([Bare("echo"), Word(QuotedAll(usage)), DuplicateTo, Bare("2"), Newline]
                 + ([Bare("exit"), Bare("64")] + ([Newline, Bare("fi"), Newline] + rest)))
  }

  lemma RunUsage(usage: string, rest: seq<Token>, env: Env)
    ensures Run(UsageTokens(usage, rest), env) == Exit(64)
  {
    hide Run;
    var tail := [Newline, Bare("fi"), Newline] + rest;
    RunSkip(Newline, [Bare("echo"), Word(QuotedAll(usage)), DuplicateTo, Bare("2"), Newline]
                     + ([Bare("exit"), Bare("64")] + tail), env);
    RunEcho(usage, Newline, [Bare("exit"), Bare("64")] + tail, env);
    RunExit(tail, env);
  }

  lemma GuardPositions(n: nat, usage: string, rest: seq<Token>)
    ensures Find(GuardTokens(Decimal(n), usage) + rest, Semicolon) == 6
    ensures Find(GuardTokens(Decimal(n), usage) + rest, Bare("fi")) == 17
  {
    hide Decimal;
    var ts := GuardTokens(Decimal(n), usage) + rest;
    NumeralHasNoStar(n);
    assert "fi"[0] == 'f';
    BareInjective(Decimal(n), "fi");
    BareInjective("if", "fi");
    BareInjective("[", "fi");
    BareInjective("-ne", "fi");
    BareInjective("]", "fi");
    BareInjective("then", "fi");
    BareInjective("echo", "fi");
    BareInjective("2", "fi");
    BareInjective("exit", "fi");
    BareInjective("64", "fi");
    BareIsNotQuoted("fi", usage);
    CountIsNotBare("fi");
    FindAt(ts, Semicolon, 6);
    FindAt(ts, Bare("fi"), 17);
  }

  lemma CountIsNotBare(s: string)
    requires |s| != 1
    ensures Bare(s) != Word([Count]) && Bare(s) != Word([All]) && Bare(s) != Word([Var("arg")])
  {
    assert |PlainAll(s)| != 1;
  }

  lemma RunIfParts(ts: seq<Token>, semi: nat, fi: nat, env: Env)
    requires ts != [] && ts[0] == Bare("if") && Find(ts, Semicolon) == semi && Find(ts, Bare("fi")) == fi
    requires semi + 1 < fi < |ts| && ts[semi + 1] == Bare("then")
    requires Test(ts[1..semi], env).Some?
    ensures Run(ts, env) == if Test(ts[1..semi], env).value then Run(ts[semi + 2..], env) else Run(ts[fi + 1..], env)
  {
    hide Test, Find;
    KeywordsDiffer();
  }

  // ---------- the argument loop ----------

  predicate StartsWithDash(s: string) {
    s != "" && s[0] == '-'
  }

  lemma {:induction false} StarMatchesAll(s: string)
    ensures Matches([Plain('*')], s)
    decreases |s|
  {
    if s == "" {
      assert [Plain('*')][1..] == [];
    } else {
      StarMatchesAll(s[1..]);
    }
  }

  lemma DashPattern(s: string)
    ensures Matches(PlainAll("-*"), s) <==> StartsWithDash(s)
  {
    var p := PlainAll("-*");
    assert p[1..] == [Plain('*')];
    if StartsWithDash(s) {
      StarMatchesAll(s[1..]);
    }
  }

  lemma RunClause(env: Env)
    requires "arg" in env.vars
    ensures Run([Newline] + ClauseTokens(), env) == if StartsWithDash(env.vars["arg"]) then Exit(64) else Done
  {
    hide Run, Matches, Find;
    RunSkip(Newline, ClauseTokens(), env);
    KeywordsDiffer();
    var ts := ClauseTokens();
    FindAt(ts, DoubleSemicolon, 13);
    var subject := env.vars["arg"];
    ExpandOne(Var("arg"), env);
    DashPattern(subject);
    RunCaseParts(ts, 13, subject, env);
    assert ts[16..] == [Newline] + [];
    RunSkip(Newline, [], env);
    RunNothing(env);
    assert ts[6..13] == [Bare("echo"), Word(QuotedAll(WARNING)), DuplicateTo, Bare("2"), Semicolon]
                        + ([Bare("exit"), Bare("64")] + []);
    RunEcho(WARNING, Semicolon, [Bare("exit"), Bare("64")] + [], env);
    RunExit([], env);
  }

  lemma RunNothing(env: Env)
    ensures Run([], env) == Done
  {
  }

  lemma RunCaseParts(ts: seq<Token>, end: nat, subject: string, env: Env)
    requires ts != [] && ts[0] == Bare("case") && Find(ts, DoubleSemicolon) == end
    requires 6 <= end && end + 2 < |ts| && ts[1].Word? && ts[2] == Bare("in") && ts[3] == Newline && ts[4].Word?
    requires ts[5] == CloseParen && ts[end + 1] == Newline && ts[end + 2] == Bare("esac")
    requires ExpandPieces(ts[1].pieces, env) == Some(subject)
    ensures Run(ts, env) ==
      if Matches(ts[4].pieces, subject) then
        (if Run(ts[6..end], env).Done? then Run(ts[end + 3..], env) else Run(ts[6..end], env))
      else Run(ts[end + 3..], env)
  {
    hide Matches, Find;
    KeywordsDiffer();
  }

  lemma {:induction false} RunArguments(values: seq<string>, env: Env)
    ensures RunEach([Newline] + ClauseTokens(), "arg", values, env)
         == if exists v :: v in values && StartsWithDash(v) then Exit(64) else Done
    decreases |values|
  {
    hide Run;
    if values != [] {
      RunClause(env.(vars := env.vars["arg" := values[0]]));
      RunArguments(values[1..], env);
      assert values == [values[0]] + values[1..];
    }
  }

  /** The loop refuses the arguments exactly when one starts with a dash. */
  lemma RunLoop(rest: seq<Token>, env: Env)
    ensures Run(LoopTokens() + rest, env)
         == if exists v :: v in env.args && StartsWithDash(v) then Exit(64) else Run(rest, env)
  {
    hide Run, RunEach;
    var ts := LoopTokens() + rest;
    LoopPositions(rest);
    assert ts[6..24] == [Newline] + ClauseTokens();
    assert ts[25..] == [Newline] + rest;
    ExpandPlain("arg", env);
    RunArguments(env.args, env);
    RunForParts(ts, 24, "arg", env.args, env);
    RunSkip(Newline, rest, env);
  }

  lemma LoopPositions(rest: seq<Token>)
    ensures Find(LoopTokens() + rest, Bare("done")) == 24
  {
    var ts := LoopTokens() + rest;
    BareInjective("for", "done");
    BareInjective("arg", "done");
    BareInjective("in", "done");
    BareInjective("do", "done");
    BareInjective("case", "done");
    BareInjective("-*", "done");
    BareInjective("echo", "done");
    BareInjective("2", "done");
    BareInjective("exit", "done");
    BareInjective("64", "done");
    BareInjective("esac", "done");
    BareIsNotQuoted("done", WARNING);
    CountIsNotBare("done");
    assert |ClauseTokens()| == 17;
    assert forall i :: 7 <= i < 24 ==> ts[i] == ClauseTokens()[i - 7];
    FindAt(ts, Bare("done"), 24);
  }

  lemma RunForParts(ts: seq<Token>, done: nat, name: string, values: seq<string>, env: Env)
    requires ts != [] && ts[0] == Bare("for") && Find(ts, Bare("done")) == done
    requires 6 <= done < |ts| && ts[1].Word? && ts[2] == Bare("in") && ts[3].Word? && ts[4] == Semicolon && ts[5] == Bare("do")
    requires ExpandPieces(ts[1].pieces, env) == Some(name) && ExpandWord(ts[3], env) == Some(values)
    ensures Run(ts, env) ==
      if RunEach(ts[6..done], name, values, env).Done? then Run(ts[done + 1..], env)
      else RunEach(ts[6..done], name, values, env)
  {
    hide Find, RunEach;
    KeywordsDiffer();
  }

  // ---------- the exec line ----------

  lemma RunExec(parts: seq<Part>, env: Env)
    requires Runnable(parts) && ValidParts(parts)
    ensures Run([Bare("exec")] + WordTokens(parts) + [Newline], env) == Exec(PartValues(parts, env.args))
  {
    hide PartValue, PartPieces, ValidPart;
    var ts := [Bare("exec")] + WordTokens(parts) + [Newline];
    KeywordsDiffer();
    EndAt(ts, |parts| + 1);
    assert ts[1..|parts| + 1] == WordTokens(parts);
    ExpandParts(parts, env);
  }

  lemma ExecPartsRunnable(executable: string, args: seq<string>)
    ensures Runnable(ExecParts(executable, args)) && ValidParts(ExecParts(executable, args))
  {
    hide IsPlaceholder, Placeholders;
    ExecWordsAreParts(executable, args);
  }

  /** A wrapper checks the count, then the dashes, and then executes the words it was given. */
  lemma RunWrapper(path: string, executable: string, args: seq<string>, actual: seq<string>)
    ensures Runnable(ExecParts(executable, args))
    ensures RunScript(Content(path, executable, Placeholders(args), ArgWords(args)), actual)
         == if |actual| != |Placeholders(args)| || (exists v :: v in actual && StartsWithDash(v)) then Exit(64)
            else Exec(PartValues(ExecParts(executable, args), actual))
  {
    hide Run, Lex, Content, GuardTokens, LoopTokens, ArgWords, Placeholders, ValidParts, PartValues, ExecParts, Usage;
    var usage, n, env := Usage(path, Placeholders(args)), |Placeholders(args)|, Env(actual, map[]);
    ExecPartsRunnable(executable, args);
    LexContent(path, executable, args);
    var execTokens := [Bare("exec")] + WordTokens(ExecParts(executable, args)) + [Newline];
    var body := GuardTokens(Decimal(n), usage) + (LoopTokens() + execTokens);
    assert ScriptTokens(usage, executable, args) == [Newline] + ([Newline] + body);
    RunSkip(Newline, [Newline] + body, env);
    RunSkip(Newline, body, env);
    RunGuard(n, usage, LoopTokens() + execTokens, env);
    RunLoop(execTokens, env);
    RunExec(ExecParts(executable, args), env);
  }

  // ---------- the promise ----------

  /** The planned command with the k-th placeholder replaced by the k-th argument. */
  function Planned(executable: string, args: seq<string>, actual: seq<string>): (argv: seq<string>)
    requires |actual| == |Placeholders(args)|
  {
    [executable] + seq(|args|, i requires 0 <= i < |args| =>
      PlaceholderCount(args, i);
      if IsPlaceholder(args[i]) then actual[|Placeholders(args[..i])|] else args[i])
  }

  lemma {:induction false} PlaceholderCount(args: seq<string>, i: nat)
    requires i < |args|
    ensures |Placeholders(args[..i])| + (if IsPlaceholder(args[i]) then 1 else 0) <= |Placeholders(args)|
    decreases |args|
  {
    var n := |args| - 1;
    if i < n {
      PlaceholderCount(args[..n], i);
      assert args[..n][..i] == args[..i];
    }
  }

  lemma {:induction false} PlaceholderAt(args: seq<string>, k: nat) returns (i: nat)
    requires k < |Placeholders(args)|
    ensures i < |args| && IsPlaceholder(args[i]) && |Placeholders(args[..i])| == k
    decreases |args|
  {
    var n := |args| - 1;
    if |Placeholders(args[..n])| == k {
      i := n;
    } else {
      i := PlaceholderAt(args[..n], k);
      assert args[..n][..i] == args[..i];
    }
  }

  /** With at most nine placeholders the script runs exactly the planned argv, and exits 64 exactly when the
      count is wrong or an argument starts with a dash. */
  lemma WrapperRunsPlannedCommand(path: string, executable: string, args: seq<string>, actual: seq<string>)
    requires |Placeholders(args)| <= 9
    ensures RunScript(Content(path, executable, Placeholders(args), ArgWords(args)), actual)
         == if |actual| != |Placeholders(args)| || (exists v :: v in actual && StartsWithDash(v)) then Exit(64)
            else Exec(Planned(executable, args, actual))
  {
    hide RunScript, Content, ArgWords, PartValues, Planned, ExecParts;
    RunWrapper(path, executable, args, actual);
    if |actual| == |Placeholders(args)| {
      ValuesArePlanned(executable, args, actual);
    }
  }

  lemma ValuesArePlanned(executable: string, args: seq<string>, actual: seq<string>)
    requires |actual| == |Placeholders(args)| <= 9
    ensures Runnable(ExecParts(executable, args))
    ensures PartValues(ExecParts(executable, args), actual) == Planned(executable, args, actual)
  {
    hide IsPlaceholder, Decimal;
    ExecPartsRunnable(executable, args);
    var parts, planned := ExecParts(executable, args), Planned(executable, args, actual);
    forall j | 0 <= j < |parts| ensures PartValue(parts[j], actual) == planned[j] {
      if j > 0 {
        var i := j - 1;
        PlaceholderCount(args, i);
        assert parts[j] == ArgPart(args, i);
        if IsPlaceholder(args[i]) {
          OneDigit(|Placeholders(args[..i])| + 1, actual);
        }
      }
    }
  }

  lemma OneDigit(k: nat, args: seq<string>)
    requires 1 <= k <= 9 && k <= |args|
    ensures PartValue(Numbered(k), args) == args[k - 1]
  {
    LeadingDigit(k);
    assert Decimal(k) == [DIGITS[k]];
    DigitOfDigit(k);
    assert Decimal(k)[1..] == "";
  }

  /** From the tenth placeholder on, sh reads the first digit as the parameter and the rest as text. */
  lemma TenthPlaceholderBreaks(path: string, executable: string, args: seq<string>)
    requires |Placeholders(args)| >= 10
    ensures var actual := seq(|Placeholders(args)|, _ => "x");
      RunScript(Content(path, executable, Placeholders(args), ArgWords(args)), actual) != Exec(Planned(executable, args, actual))
  {
    hide RunScript, Content, ArgWords, IsPlaceholder, PartValue, Planned;
    var actual := seq(|Placeholders(args)|, _ => "x");
    RunWrapper(path, executable, args, actual);
    var i := PlaceholderAt(args, 9);
    var parts := ExecParts(executable, args);
    assert parts[i + 1] == Numbered(10);
    TenthValue(actual);
    assert PartValues(parts, actual)[i + 1] == "x0";
    TenthPlanned(executable, args, actual, i);
  }

  lemma TenthValue(actual: seq<string>)
    requires actual != [] && actual[0] == "x"
    ensures PartValue(Numbered(10), actual) == "x0"
  {
    assert Decimal(10) == "10";
  }

  lemma TenthPlanned(executable: string, args: seq<string>, actual: seq<string>, i: nat)
    requires |actual| == |Placeholders(args)| && forall j :: 0 <= j < |actual| ==> actual[j] == "x"
    requires i < |args| && IsPlaceholder(args[i]) && |Placeholders(args[..i])| == 9
    ensures Planned(executable, args, actual)[i + 1] == "x"
  {
    PlaceholderCount(args, i);
  }

  /** The wrapper keeps its promise for all arguments exactly when the command has at most nine placeholders. */
  lemma PromiseHoldsIffNinePlaceholders(path: string, executable: string, args: seq<string>)
    ensures (forall actual: seq<string> :: |actual| == |Placeholders(args)| && !(exists v :: v in actual && StartsWithDash(v)) ==>
               RunScript(Content(path, executable, Placeholders(args), ArgWords(args)), actual)
               == Exec(Planned(executable, args, actual)))
            <==> |Placeholders(args)| <= 9
  {
    hide RunScript, Content, ArgWords, IsPlaceholder, Planned;
    if |Placeholders(args)| <= 9 {
      forall actual: seq<string> | |actual| == |Placeholders(args)| && !(exists v :: v in actual && StartsWithDash(v))
        ensures RunScript(Content(path, executable, Placeholders(args), ArgWords(args)), actual)
             == Exec(Planned(executable, args, actual))
      {
        WrapperRunsPlannedCommand(path, executable, args, actual);
      }
    } else {
      TenthPlaceholderBreaks(path, executable, args);
      var actual := seq(|Placeholders(args)|, _ => "x");
      assert !(exists v :: v in actual && StartsWithDash(v));
    }
  }
}
