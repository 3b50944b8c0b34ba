/** The generator of per-command exec wrappers, and what the generated scripts do when sh runs them. */
module ExecWrapper {
  import opened Wrappers
  import opened Text
  import opened Shell

  // ---------- the generator ----------

  /** `'` ends the quotes, is written escaped, and opens them again. */
  function EscapeQuotes(s: string): string {
    if s == "" then "" else (if s[0] == '\'' then "'\\''" else [s[0]]) + EscapeQuotes(s[1..])
  }

  function ShellQuote(s: string): string {
    "'" + EscapeQuotes(s) + "'"
  }

  predicate IsPlaceholder(token: string) {
    && |token| >= 3 && token[0] == '<' && token[|token| - 1] == '>'
    && forall i :: 0 < i < |token| - 1 ==> token[i] != '<' && token[i] != '>' && !IsSpace(token[i])
  }

  function Placeholders(args: seq<string>): (r: seq<string>)
    ensures |r| <= |args|
  {
    if args == [] then []
    else
      var n := |args| - 1;
      Placeholders(args[..n]) + if IsPlaceholder(args[n]) then [args[n]] else []
  }

  function NonEmpty(parts: seq<string>): (r: seq<string>)
    ensures forall t :: t in r ==> t in parts && t != ""
  {
    if parts == [] then [] else (if parts[0] == "" then [] else [parts[0]]) + NonEmpty(parts[1..])
  }

  /** The k-th positional parameter in double quotes. */
  function Positional(k: nat): string {
    "\"$" + Decimal(k) + "\""
  }

  /** The argument words, counting the placeholders met so far. */
  function ArgWords(args: seq<string>): (r: seq<string>)
    ensures |r| == |args|
  {
    if args == [] then []
    else
      var n := |args| - 1;
      ArgWords(args[..n])
      + [if IsPlaceholder(args[n]) then Positional(|Placeholders(args[..n])| + 1) else ShellQuote(args[n])]
  }

  const WARNING := "arguments must not start with '-'"

  function Content(path: string, executable: string, placeholders: seq<string>, execArgs: seq<string>): string {
    Join([
      "#!/bin/sh",
      HEADER,
      "if [ \"$#\" -ne " + Decimal(|placeholders|) + " ]; then",
      "  echo " + ShellQuote("usage: " + Join([path] + placeholders, " ")) + " >&2",
      "  exit 64",
      "fi",
      "for arg in \"$@\"; do",
      "  case \"$arg\" in",
      "    -*) echo " + ShellQuote(WARNING) + " >&2; exit 64 ;;",
      "  esac",
      "done",
      "exec " + Join([ShellQuote(executable)] + execArgs, " "),
      ""], "\n")
  }

  datatype Plan = Plan(path: string, executable: string, placeholders: seq<string>, content: string)

  function Tokenize(command: string): seq<string> {
    NonEmpty(Split(command, " "))
  }

  /** Plans the wrapper at `path` (its slug and hash are computed elsewhere), or nothing for a command that
      does not start with an absolute path. */
  method PlanExecWrapper(path: string, command: string) returns (plan: Option<Plan>)
    ensures var tokens := Tokenize(command);
      plan == if tokens == [] || !("/" <= tokens[0]) then None
              else Some(Plan(path, tokens[0], Placeholders(tokens[1..]),
                        Content(path, tokens[0], Placeholders(tokens[1..]), ArgWords(tokens[1..]))))
  {
    hide Content, ShellQuote, Positional, IsPlaceholder, Tokenize;
    var tokens := Tokenize(command);
    if tokens == [] || !("/" <= tokens[0]) {
      return None;
    }
    var executable, args := tokens[0], tokens[1..];
    var placeholders := Placeholders(args);
    var position := 0;
    var execArgs: seq<string> := [];
    for i := 0 to |args|
      invariant position == |Placeholders(args[..i])| && execArgs == ArgWords(args[..i])
    {
      assert args[..i + 1][..i] == args[..i];
      if IsPlaceholder(args[i]) {
        position := position + 1;
        execArgs := execArgs + [Positional(position)];
      } else {
        execArgs := execArgs + [ShellQuote(args[i])];
      }
    }
    assert args[..|args|] == args;
    return Some(Plan(path, executable, placeholders, Content(path, executable, placeholders, execArgs)));
  }

  // ---------- lexing the generated text ----------

  /** One part of a word as the generator writes it. */
  datatype Part =
    | Bare_(text: string)
    | Single(value: string)
    | Numbered(k: nat)
    | Special(name: string)

  function PartText(p: Part): string {
    match p
    case Bare_(t) => t
    case Single(v) => ShellQuote(v)
    case Numbered(k) => Positional(k)
    case Special(n) => "\"$" + n + "\""
  }

  /** Only the first digit belongs to a positional parameter. */
  function NumberedPieces(digits: string): seq<Piece>
    requires digits != "" && '1' <= digits[0] <= '9'
  {
    [Arg(digits[0] as nat - '0' as nat)] + QuotedAll(digits[1..])
  }

  ghost predicate ValidPart(p: Part) {
    match p
    case Bare_(t) => t != "" && forall i :: 0 <= i < |t| ==> IsOrdinary(t[i])
    case Single(_) => true
    case Numbered(k) => k > 0
    case Special(n) => n in {"#", "@", "arg"}
  }

  ghost function PartPieces(p: Part): seq<Piece>
    requires ValidPart(p)
  {
    match p
    case Bare_(t) => PlainAll(t)
    case Single(v) => QuotedAll(v)
    case Numbered(k) => LeadingDigit(k); NumberedPieces(Decimal(k))
    case Special(n) => [if n == "#" then Count else if n == "@" then All else Var("arg")]
  }

  lemma {:induction false} LeadingDigit(n: nat)
    requires n > 0
    ensures Decimal(n) != "" && '1' <= Decimal(n)[0] <= '9'
    ensures forall i :: 0 <= i < |Decimal(n)| ==> '0' <= Decimal(n)[i] <= '9'
    decreases n
  {
    if n >= 10 {
      LeadingDigit(n / 10);
    }
  }

  lemma {:induction false} LexBare(t: string, rest: string, current: Option<seq<Piece>>)
    requires t != "" && forall i :: 0 <= i < |t| ==> IsOrdinary(t[i])
    ensures Lex(t + rest, current) == Lex(rest, Some(Pieces(current) + PlainAll(t)))
    decreases |t|
  {
    hide Lex;
    var s := t + rest;
    LexOrdinary(s, current);
    if |t| == 1 {
      assert s[1..] == rest && PlainAll(t) == [Plain(t[0])];
    } else {
      assert s[1..] == t[1..] + rest;
      LexBare(t[1..], rest, Some(Pieces(current) + [Plain(t[0])]));
      assert Pieces(current) + [Plain(t[0])] + PlainAll(t[1..]) == Pieces(current) + PlainAll(t);
    }
  }

  /** Inside single quotes, having read `done`, with `s` still to come. */
  lemma {:induction false} LexEscaped(done: string, s: string, rest: string, current: Option<seq<Piece>>)
    requires '\'' !in done
    ensures Lex("'" + done + EscapeQuotes(s) + "'" + rest, current)
         == Lex(rest, Some(Pieces(current) + QuotedAll(done + s)))
    decreases |s|
  {
    hide Lex, EscapeQuotes;
    if s == "" {
      NothingToEscape(done, rest);
      LexSingleQuotes(done, rest, current);
    } else if s[0] == '\'' {
      var tail := "'" + "" + EscapeQuotes(s[1..]) + "'" + rest;
      EscapedQuote(done, s, rest);
      LexSingleQuotes(done, "\\'" + tail, current);
      var afterDone := Some(Pieces(current) + QuotedAll(done));
      LexBackslash('\'', tail, afterDone);
      LexEscaped("", s[1..], rest, Some(Pieces(afterDone) + [Quoted('\'')]));
      assert "" + s[1..] == s[1..];
      assert Pieces(current) + QuotedAll(done) + [Quoted('\'')] + QuotedAll(s[1..]) == Pieces(current) + QuotedAll(done + s);
    } else {
      UnescapedQuote(done, s, rest);
      LexEscaped(done + [s[0]], s[1..], rest, current);
      assert done + [s[0]] + s[1..] == done + s;
    }
  }

  lemma NothingToEscape(done: string, rest: string)
    ensures "'" + done + EscapeQuotes("") + "'" + rest == "'" + done + "'" + rest && done + "" == done
  {
  }

  lemma UnescapedQuote(done: string, s: string, rest: string)
    requires s != "" && s[0] != '\''
    ensures "'" + done + EscapeQuotes(s) + "'" + rest == "'" + (done + [s[0]]) + EscapeQuotes(s[1..]) + "'" + rest
  {
    var e := EscapeQuotes(s[1..]);
    assert done + ([s[0]] + e) == done + [s[0]] + e;
  }

  lemma EscapedQuote(done: string, s: string, rest: string)
    requires s != "" && s[0] == '\''
    ensures "'" + done + EscapeQuotes(s) + "'" + rest
         == "'" + done + "'" + ("\\'" + ("'" + "" + EscapeQuotes(s[1..]) + "'" + rest))
  {
    RegroupQuote(done, EscapeQuotes(s[1..]), rest);
  }

  lemma RegroupQuote(done: string, e: string, rest: string)
    ensures "'" + done + ("'\\''" + e) + "'" + rest == "'" + done + "'" + ("\\'" + ("'" + "" + e + "'" + rest))
  {
    assert "'\\''" == "'" + "\\'" + "'";
  }

  /** A shell-quoted string is one literal word, whatever it contains. */
  lemma LexShellQuote(s: string, rest: string, current: Option<seq<Piece>>)
    ensures Lex(ShellQuote(s) + rest, current) == Lex(rest, Some(Pieces(current) + QuotedAll(s)))
  {
    LexEscaped("", s, rest, current);
    assert "'" + "" + EscapeQuotes(s) + "'" + rest == ShellQuote(s) + rest;
    assert "" + s == s;
  }

  lemma {:induction false} LexDoubleDigits(digits: string, rest: string)
    requires forall i :: 0 <= i < |digits| ==> '0' <= digits[i] <= '9'
    ensures LexDouble(digits + "\"" + rest) == Some((QuotedAll(digits), rest))
    decreases |digits|
  {
    var s := digits + "\"" + rest;
    if digits == "" {
      assert s[0] == '"' && s[1..] == rest;
      assert QuotedAll(digits) == [];
    } else {
      assert s[1..] == digits[1..] + "\"" + rest;
      LexDoubleDigits(digits[1..], rest);
      assert [Quoted(digits[0])] + QuotedAll(digits[1..]) == QuotedAll(digits);
    }
  }

  lemma LexNumbered(k: nat, rest: string, current: Option<seq<Piece>>)
    requires k > 0
    ensures ValidPart(Numbered(k))
    ensures Lex(Positional(k) + rest, current) == Lex(rest, Some(Pieces(current) + PartPieces(Numbered(k))))
  {
    hide Lex, LexDouble, Decimal;
    LeadingDigit(k);
    var digits := Decimal(k);
    var inner := "$" + digits + "\"" + rest;
    assert inner[2..] == digits[1..] + "\"" + rest;
    LexDoubleDigits(digits[1..], rest);
    LexDoubleDigit(inner, digits, rest);
    LexDoubleQuotes(inner, NumberedPieces(digits), rest, current);
    assert Positional(k) + rest == "\"" + inner;
  }

  lemma LexDoubleDigit(inner: string, digits: string, rest: string)
    requires digits != "" && '1' <= digits[0] <= '9' && inner == "$" + digits + "\"" + rest
    requires LexDouble(inner[2..]) == Some((QuotedAll(digits[1..]), rest))
    ensures LexDouble(inner) == Some((NumberedPieces(digits), rest))
  {
  }

  lemma LexSpecial(n: string, rest: string, current: Option<seq<Piece>>)
    requires ValidPart(Special(n))
    ensures Lex(PartText(Special(n)) + rest, current) == Lex(rest, Some(Pieces(current) + PartPieces(Special(n))))
  {
    hide Lex, LexDouble;
    var closing := "\"" + rest;
    var inner := "$" + n + closing;
    if n == "arg" {
      LexArgName(closing, rest);
      assert "$" + "arg" == "$arg";
    } else {
      LexSign(n, closing, rest);
    }
    LexDoubleQuotes(inner, PartPieces(Special(n)), rest, current);
    assert PartText(Special(n)) + rest == "\"" + inner;
  }

  lemma LexArgName(closing: string, rest: string)
    requires closing == "\"" + rest
    ensures LexDouble("$arg" + closing) == Some(([Var("arg")], rest))
  {
    var inner := "$arg" + closing;
    assert closing[1..] == rest;
    NameLengthOfArg(closing);
    assert inner[1..] == "arg" + closing;
    assert inner[1 + 3..] == closing && inner[1..1 + 3] == "arg";
    assert LexDouble(closing) == Some(([], rest));
    assert LexDouble(inner) == PrependPiece(Var("arg"), LexDouble(closing));
    assert [Var("arg")] + [] == [Var("arg")];
  }

  lemma LexSign(n: string, closing: string, rest: string)
    requires (n == "#" || n == "@") && closing == "\"" + rest
    ensures LexDouble("$" + n + closing) == Some(([if n == "#" then Count else All], rest))
  {
    var inner := "$" + n + closing;
    assert closing[1..] == rest;
    assert inner[2..] == closing && inner[1] == n[0];
    var piece := if n == "#" then Count else All;
    assert LexDouble(closing) == Some(([], rest));
    assert LexDouble(inner) == PrependPiece(piece, LexDouble(closing));
    assert [piece] + [] == [piece];
  }

  lemma NameLengthOfArg(closing: string)
    requires closing != "" && closing[0] == '"'
    ensures NameLength("arg" + closing) == 3
  {
    var a, r, g := "arg" + closing, "rg" + closing, "g" + closing;
    assert a[1..] == r && r[1..] == g && g[1..] == closing;
    assert NameLength(closing) == 0;
    assert NameLength(g) == 1;
    assert NameLength(r) == 2;
  }

  lemma LexPart(p: Part, rest: string, current: Option<seq<Piece>>)
    requires ValidPart(p)
    ensures Lex(PartText(p) + rest, current) == Lex(rest, Some(Pieces(current) + PartPieces(p)))
  {
    match p
    case Bare_(t) => LexBare(t, rest, current);
    case Single(v) => LexShellQuote(v, rest, current);
    case Numbered(k) => LexNumbered(k, rest, current);
    case Special(n) => LexSpecial(n, rest, current);
  }

  // ---------- items: a word, if any, and what ends it ----------

  datatype End = Space | Line | Semi | DoubleSemi | Paren | Duplicate

  datatype Item = Item(part: Option<Part>, end: End)

  function EndText(e: End): string {
    match e
    case Space => " "
    case Line => "\n"
    case Semi => ";"
    case DoubleSemi => ";;"
    case Paren => ")"
    case Duplicate => ">&"
  }

  function EndTokens(e: End): seq<Token> {
    match e
    case Space => []
    case Line => [Newline]
    case Semi => [Semicolon]
    case DoubleSemi => [DoubleSemicolon]
    case Paren => [CloseParen]
    case Duplicate => [DuplicateTo]
  }

  function ItemText(it: Item): string {
    (if it.part.None? then "" else PartText(it.part.value)) + EndText(it.end)
  }

  ghost predicate ValidItem(it: Item) {
    it.part.Some? ==> ValidPart(it.part.value)
  }

  ghost function ItemTokens(it: Item): seq<Token>
    requires ValidItem(it)
  {
    (if it.part.None? then [] else [Word(PartPieces(it.part.value))]) + EndTokens(it.end)
  }

  lemma LexItem(it: Item, rest: string)
    requires ValidItem(it)
    requires it.end == Semi ==> rest == "" || rest[0] != ';'
    ensures Lex(ItemText(it) + rest, None) == Prepend(ItemTokens(it), Lex(rest, None))
  {
    hide Lex, PartText, PartPieces, ValidPart;
    var tail := EndText(it.end) + rest;
    var current: Option<seq<Piece>> := None;
    if it.part.None? {
      assert ItemText(it) + rest == tail;
    } else {
      assert ItemText(it) + rest == PartText(it.part.value) + tail;
      LexPart(it.part.value, tail, None);
      assert Pieces(None) + PartPieces(it.part.value) == PartPieces(it.part.value);
      current := Some(PartPieces(it.part.value));
    }
    LexEnd(it.end, rest, current);
  }

  lemma LexEnd(e: End, rest: string, current: Option<seq<Piece>>)
    requires e == Semi ==> rest == "" || rest[0] != ';'
    ensures Lex(EndText(e) + rest, current) == Prepend(Flush(current) + EndTokens(e), Lex(rest, None))
  {
    hide Lex;
    assert Flush(current) + [] == Flush(current);
    match e
    case Space => LexSpace(rest, current);
    case Line => LexNewline(rest, current);
    case Semi => LexSemicolon(rest, current);
    case DoubleSemi => LexDoubleSemicolon(rest, current);
    case Paren => LexCloseParen(rest, current);
    case Duplicate => LexDuplicate(rest, current);
  }

  lemma PrependTwice(a: seq<Token>, b: seq<Token>, r: Tokens)
    ensures Prepend(a, Prepend(b, r)) == Prepend(a + b, r)
  {
    if r.Some? {
      assert a + (b + r.value) == a + b + r.value;
    }
  }

  // ---------- the lines of the script ----------

  function W(s: string, end: End): Item {
    Item(Some(Bare_(s)), end)
  }

  /** A text that lexes to these tokens and then goes on as `tail`. */
  ghost predicate LexesTo(text: string, ts: seq<Token>, tail: string) {
    Lex(text, None) == Prepend(ts, Lex(tail, None))
  }

  lemma LexesToNothing(tail: string)
    ensures LexesTo(tail, [], tail)
  {
    var r := Lex(tail, None);
    assert r.Some? ==> [] + r.value == r.value;
  }

  lemma AddItem(a: Item, rest: string, ts: seq<Token>, tail: string)
    requires ValidItem(a) && LexesTo(rest, ts, tail) && (a.end == Semi ==> rest != "" && rest[0] == ' ')
    ensures LexesTo(ItemText(a) + rest, ItemTokens(a) + ts, tail)
  {
    hide Lex, ItemText, ItemTokens, ValidPart;
    LexItem(a, rest);
    PrependTwice(ItemTokens(a), ts, Lex(tail, None));
  }

  predicate Ordinary(s: string) {
    s != "" && forall i :: 0 <= i < |s| ==> IsOrdinary(s[i])
  }

  lemma AddWord(s: string, rest: string, ts: seq<Token>, tail: string)
    requires Ordinary(s) && LexesTo(rest, ts, tail)
    ensures LexesTo(s + " " + rest, [Bare(s)] + ts, tail)
  {
    hide LexesTo;
    var it := W(s, Space);
    AddItem(it, rest, ts, tail);
    assert ItemText(it) + rest == s + " " + rest && ItemTokens(it) + ts == [Bare(s)] + ts;
  }

  lemma AddLastWord(s: string, rest: string, ts: seq<Token>, tail: string)
    requires Ordinary(s) && LexesTo(rest, ts, tail)
    ensures LexesTo(s + "\n" + rest, [Bare(s), Newline] + ts, tail)
  {
    hide LexesTo;
    var it := W(s, Line);
    AddItem(it, rest, ts, tail);
    assert ItemText(it) + rest == s + "\n" + rest && ItemTokens(it) + ts == [Bare(s), Newline] + ts;
  }

  lemma AddWordSemicolon(s: string, rest: string, ts: seq<Token>, tail: string)
    requires Ordinary(s) && LexesTo(rest, ts, tail)
    ensures LexesTo(s + "; " + rest, [Bare(s), Semicolon] + ts, tail)
  {
    hide LexesTo;
    AddBlank(rest, ts, tail);
    var it := W(s, Semi);
    AddItem(it, " " + rest, ts, tail);
    assert ItemText(it) + (" " + rest) == s + "; " + rest && ItemTokens(it) + ts == [Bare(s), Semicolon] + ts;
  }

  lemma AddBlank(rest: string, ts: seq<Token>, tail: string)
    requires LexesTo(rest, ts, tail)
    ensures LexesTo(" " + rest, ts, tail)
  {
    hide LexesTo;
    var it := Item(None, Space);
    AddItem(it, rest, ts, tail);
    assert ItemText(it) + rest == " " + rest && ItemTokens(it) + ts == ts;
  }

  lemma AddQuoted(v: string, rest: string, ts: seq<Token>, tail: string)
    requires LexesTo(rest, ts, tail)
    ensures LexesTo(ShellQuote(v) + " " + rest, [Word(QuotedAll(v))] + ts, tail)
  {
    hide LexesTo;
    var it := Item(Some(Single(v)), Space);
    AddItem(it, rest, ts, tail);
    assert ItemText(it) + rest == ShellQuote(v) + " " + rest;
    assert ItemTokens(it) + ts == [Word(QuotedAll(v))] + ts;
  }

  lemma AddSpecial(n: string, rest: string, ts: seq<Token>, tail: string)
    requires ValidPart(Special(n)) && LexesTo(rest, ts, tail)
    ensures LexesTo("\"$" + n + "\" " + rest, [Word(PartPieces(Special(n)))] + ts, tail)
  {
    hide LexesTo;
    var it := Item(Some(Special(n)), Space);
    AddItem(it, rest, ts, tail);
    assert ItemText(it) + rest == "\"$" + n + "\" " + rest;
    assert ItemTokens(it) + ts == [Word(PartPieces(Special(n)))] + ts;
  }

  /** "$@"; */
  lemma AddAll(rest: string, ts: seq<Token>, tail: string)
    requires LexesTo(rest, ts, tail)
    ensures LexesTo("\"$@\"; " + rest, [Word([All]), Semicolon] + ts, tail)
  {
    hide LexesTo;
    AddBlank(rest, ts, tail);
    var it := Item(Some(Special("@")), Semi);
    AddItem(it, " " + rest, ts, tail);
    assert ItemText(it) + (" " + rest) == "\"$@\"; " + rest;
    assert ItemTokens(it) + ts == [Word([All]), Semicolon] + ts;
  }

  /** >&2 and what ends the command */
  lemma AddToStderr(rest: string, ts: seq<Token>, tail: string)
    requires LexesTo("2" + rest, ts, tail)
    ensures LexesTo(">&2" + rest, [DuplicateTo] + ts, tail)
  {
    hide LexesTo;
    var it := Item(None, Duplicate);
    AddItem(it, "2" + rest, ts, tail);
    assert ItemText(it) + ("2" + rest) == ">&2" + rest && ItemTokens(it) == [DuplicateTo];
  }

  lemma AddCaseEnd(rest: string, ts: seq<Token>, tail: string)
    requires LexesTo(rest, ts, tail)
    ensures LexesTo(";;\n" + rest, [DoubleSemicolon, Newline] + ts, tail)
  {
    hide LexesTo;
    var newline, semis := Item(None, Line), Item(None, DoubleSemi);
    AddItem(newline, rest, ts, tail);
    assert ItemText(newline) == "\n" && ItemTokens(newline) == [Newline];
    AddItem(semis, "\n" + rest, [Newline] + ts, tail);
    assert ItemText(semis) + ("\n" + rest) == ";;\n" + rest;
    assert ItemTokens(semis) + ([Newline] + ts) == [DoubleSemicolon, Newline] + ts;
  }

  lemma AddPattern(rest: string, ts: seq<Token>, tail: string)
    requires LexesTo(rest, ts, tail)
    ensures LexesTo("-*) " + rest, [Bare("-*"), CloseParen] + ts, tail)
  {
    hide LexesTo;
    AddBlank(rest, ts, tail);
    var it := W("-*", Paren);
    AddItem(it, " " + rest, ts, tail);
    assert ItemText(it) + (" " + rest) == "-*) " + rest && ItemTokens(it) + ts == [Bare("-*"), CloseParen] + ts;
  }

  lemma AddIndent(rest: string, ts: seq<Token>, tail: string)
    requires LexesTo(rest, ts, tail)
    ensures LexesTo("  " + rest, ts, tail)
  {
    hide LexesTo;
    AddBlank(rest, ts, tail);
    AddBlank(" " + rest, ts, tail);
    assert " " + (" " + rest) == "  " + rest;
  }

  // ---------- the lines of the script, last to first ----------

  lemma AddIfLine(n: string, rest: string, ts: seq<Token>, tail: string)
    requires Ordinary(n) && LexesTo(rest, ts, tail)
    ensures LexesTo("if [ \"$#\" -ne " + n + " ]; then\n" + rest,
      [Bare("if"), Bare("["), Word([Count]), Bare("-ne"), Bare(n), Bare("]"), Semicolon, Bare("then"), Newline] + ts, tail)
  {
    hide LexesTo;
    AddLastWord("then", rest, ts, tail);
    var t1 := [Bare("then"), Newline] + ts;
    AddWordSemicolon("]", "then" + "\n" + rest, t1, tail);
    var r2, t2 := "]; then\n" + rest, [Bare("]"), Semicolon, Bare("then"), Newline] + ts;
    assert r2 == "]" + "; " + ("then" + "\n" + rest) && t2 == [Bare("]"), Semicolon] + t1;
    AddWord(n, r2, t2, tail);
    AddComparison(n, r2, t2, tail);
    assert "if [ \"$#\" -ne " + (n + " " + r2) == "if [ \"$#\" -ne " + n + " ]; then\n" + rest;
    assert [Bare("if"), Bare("["), Word([Count]), Bare("-ne"), Bare(n)] + t2
        == [Bare("if"), Bare("["), Word([Count]), Bare("-ne"), Bare(n), Bare("]"), Semicolon, Bare("then"), Newline] + ts;
  }

  lemma AddComparison(n: string, rest: string, ts: seq<Token>, tail: string)
    requires LexesTo(n + " " + rest, [Bare(n)] + ts, tail)
    ensures LexesTo("if [ \"$#\" -ne " + (n + " " + rest),
                    [Bare("if"), Bare("["), Word([Count]), Bare("-ne"), Bare(n)] + ts, tail)
  {
    hide LexesTo;
    var r, t := n + " " + rest, [Bare(n)] + ts;
    AddWord("-ne", r, t, tail);
    var r1, t1 := "-ne" + " " + r, [Bare("-ne")] + t;
    AddSpecial("#", r1, t1, tail);
    var r2, t2 := "\"$" + "#" + "\" " + r1, [Word([Count])] + t1;
    AddWord("[", r2, t2, tail);
    var r3, t3 := "[" + " " + r2, [Bare("[")] + t2;
    AddWord("if", r3, t3, tail);
    assert "if" + " " + r3 == "if [ \"$#\" -ne " + r;
    assert [Bare("if")] + t3 == [Bare("if"), Bare("["), Word([Count]), Bare("-ne"), Bare(n)] + ts;
  }

  lemma AddUsageLines(usage: string, rest: string, ts: seq<Token>, tail: string)
    requires LexesTo(rest, ts, tail)
    ensures LexesTo("  echo " + ShellQuote(usage) + " >&2\n" + ("  exit 64\n" + ("fi\n" + rest)),
      [Bare("echo"), Word(QuotedAll(usage)), DuplicateTo, Bare("2"), Newline,
       Bare("exit"), Bare("64"), Newline, Bare("fi"), Newline] + ts, tail)
  {
    hide LexesTo;
    AddLastWord("fi", rest, ts, tail);
    var r1, t1 := "fi" + "\n" + rest, [Bare("fi"), Newline] + ts;
    AddLastWord("64", r1, t1, tail);
    var r2, t2 := "64" + "\n" + r1, [Bare("64"), Newline] + t1;
    AddWord("exit", r2, t2, tail);
    var r3, t3 := "exit" + " " + r2, [Bare("exit")] + t2;
    AddIndent(r3, t3, tail);
    AddEcho(usage, "  " + r3, t3, tail);
    assert "  " + r3 == "  exit 64\n" + ("fi\n" + rest);
    assert [Bare("echo"), Word(QuotedAll(usage)), DuplicateTo, Bare("2"), Newline] + t3
        == [Bare("echo"), Word(QuotedAll(usage)), DuplicateTo, Bare("2"), Newline,
            Bare("exit"), Bare("64"), Newline, Bare("fi"), Newline] + ts;
    var text := "  echo " + ShellQuote(usage) + " >&2\n";
    assert text + ("  " + r3) == text + ("  exit 64\n" + ("fi\n" + rest));
  }

  lemma AddEcho(message: string, rest: string, ts: seq<Token>, tail: string)
    requires LexesTo(rest, ts, tail)
    ensures LexesTo("  echo " + ShellQuote(message) + " >&2\n" + rest,
                    [Bare("echo"), Word(QuotedAll(message)), DuplicateTo, Bare("2"), Newline] + ts, tail)
  {
    hide LexesTo, ShellQuote;
    AddLastWord("2", rest, ts, tail);
    assert "2" + "\n" + rest == "2" + ("\n" + rest);
    AddToStderr("\n" + rest, [Bare("2"), Newline] + ts, tail);
    var r1, t1 := ">&2" + ("\n" + rest), [DuplicateTo] + ([Bare("2"), Newline] + ts);
    AddQuoted(message, r1, t1, tail);
    var r2, t2 := ShellQuote(message) + " " + r1, [Word(QuotedAll(message))] + t1;
    AddWord("echo", r2, t2, tail);
    var r3 := "echo" + " " + r2;
    AddIndent(r3, [Bare("echo")] + t2, tail);
    assert "  " + r3 == "  echo " + ShellQuote(message) + " >&2\n" + rest;
    assert [Bare("echo")] + t2 == [Bare("echo"), Word(QuotedAll(message)), DuplicateTo, Bare("2"), Newline] + ts;
  }

  lemma ForWordsOrdinary()
    ensures Ordinary("do") && Ordinary("in") && Ordinary("arg") && Ordinary("for")
  {
  }

  lemma AddForLine(rest: string, ts: seq<Token>, tail: string)
    requires LexesTo(rest, ts, tail)
    ensures LexesTo("for arg in \"$@\"; do\n" + rest,
                    [Bare("for"), Bare("arg"), Bare("in"), Word([All]), Semicolon, Bare("do"), Newline] + ts, tail)
  {
    hide LexesTo, Ordinary, IsOrdinary;
    ForWordsOrdinary();
    AddLastWord("do", rest, ts, tail);
    var r1, t1 := "do" + "\n" + rest, [Bare("do"), Newline] + ts;
    AddAll(r1, t1, tail);
    var r2, t2 := "\"$@\"; " + r1, [Word([All]), Semicolon] + t1;
    AddWord("in", r2, t2, tail);
    var r3, t3 := "in" + " " + r2, [Bare("in")] + t2;
    AddWord("arg", r3, t3, tail);
    var r4, t4 := "arg" + " " + r3, [Bare("arg")] + t3;
    AddWord("for", r4, t4, tail);
    assert "for" + " " + r4 == "for arg in \"$@\"; do\n" + rest;
    assert [Bare("for")] + t4 == [Bare("for"), Bare("arg"), Bare("in"), Word([All]), Semicolon, Bare("do"), Newline] + ts;
  }

  lemma AddCaseLine(rest: string, ts: seq<Token>, tail: string)
    requires LexesTo(rest, ts, tail)
    ensures LexesTo("  case \"$arg\" in\n" + rest,
                    [Bare("case"), Word([Var("arg")]), Bare("in"), Newline] + ts, tail)
  {
    hide LexesTo;
    AddLastWord("in", rest, ts, tail);
    var r1, t1 := "in" + "\n" + rest, [Bare("in"), Newline] + ts;
    AddSpecial("arg", r1, t1, tail);
    var r2, t2 := "\"$" + "arg" + "\" " + r1, [Word([Var("arg")])] + t1;
    AddWord("case", r2, t2, tail);
    var r3 := "case" + " " + r2;
    AddIndent(r3, [Bare("case")] + t2, tail);
    assert "  " + r3 == "  case \"$arg\" in\n" + rest;
    assert [Bare("case")] + t2 == [Bare("case"), Word([Var("arg")]), Bare("in"), Newline] + ts;
  }

  lemma AddClauseLine(rest: string, ts: seq<Token>, tail: string)
    requires LexesTo(rest, ts, tail)
    ensures LexesTo("    -*) echo " + ShellQuote(WARNING) + " >&2; exit 64 ;;\n" + rest,
      [Bare("-*"), CloseParen, Bare("echo"), Word(QuotedAll(WARNING)), DuplicateTo, Bare("2"), Semicolon,
       Bare("exit"), Bare("64"), DoubleSemicolon, Newline] + ts, tail)
  {
    hide LexesTo, ShellQuote;
    AddCaseEnd(rest, ts, tail);
    var r1, t1 := ";;\n" + rest, [DoubleSemicolon, Newline] + ts;
    AddWord("64", r1, t1, tail);
    var r2, t2 := "64" + " " + r1, [Bare("64")] + t1;
    AddWord("exit", r2, t2, tail);
    var r3, t3 := "exit" + " " + r2, [Bare("exit")] + t2;
    AddWordSemicolon("2", r3, t3, tail);
    assert "2" + "; " + r3 == "2" + ("; " + r3);
    AddToStderr("; " + r3, [Bare("2"), Semicolon] + t3, tail);
    AddClauseStart(">&2" + ("; " + r3), [DuplicateTo] + ([Bare("2"), Semicolon] + t3), tail);
    assert r3 == "exit 64 ;;\n" + rest;
    assert [Bare("-*"), CloseParen, Bare("echo"), Word(QuotedAll(WARNING))] + ([DuplicateTo] + ([Bare("2"), Semicolon] + t3))
        == [Bare("-*"), CloseParen, Bare("echo"), Word(QuotedAll(WARNING)), DuplicateTo, Bare("2"), Semicolon,
            Bare("exit"), Bare("64"), DoubleSemicolon, Newline] + ts;
    assert "    -*) echo " + ShellQuote(WARNING) + " " + (">&2" + ("; " + r3))
        == "    -*) echo " + ShellQuote(WARNING) + " >&2; exit 64 ;;\n" + rest;
  }

  lemma AddClauseStart(rest: string, ts: seq<Token>, tail: string)
    requires LexesTo(rest, ts, tail)
    ensures LexesTo("    -*) echo " + ShellQuote(WARNING) + " " + rest,
                    [Bare("-*"), CloseParen, Bare("echo"), Word(QuotedAll(WARNING))] + ts, tail)
  {
    hide LexesTo, ShellQuote;
    AddQuoted(WARNING, rest, ts, tail);
    var r1, t1 := ShellQuote(WARNING) + " " + rest, [Word(QuotedAll(WARNING))] + ts;
    AddWord("echo", r1, t1, tail);
    var r2, t2 := "echo" + " " + r1, [Bare("echo")] + t1;
    AddPattern(r2, t2, tail);
    var r3, t3 := "-*) " + r2, [Bare("-*"), CloseParen] + t2;
    AddIndent(r3, t3, tail);
    AddIndent("  " + r3, t3, tail);
    assert "  " + ("  " + r3) == "    -*) echo " + ShellQuote(WARNING) + " " + rest;
    assert t3 == [Bare("-*"), CloseParen, Bare("echo"), Word(QuotedAll(WARNING))] + ts;
  }

  lemma AddLoopEnd(rest: string, ts: seq<Token>, tail: string)
    requires LexesTo(rest, ts, tail)
    ensures LexesTo("  esac\n" + ("done\n" + rest), [Bare("esac"), Newline, Bare("done"), Newline] + ts, tail)
  {
    hide LexesTo;
    AddLastWord("done", rest, ts, tail);
    var r1, t1 := "done" + "\n" + rest, [Bare("done"), Newline] + ts;
    AddLastWord("esac", r1, t1, tail);
    var r2, t2 := "esac" + "\n" + r1, [Bare("esac"), Newline] + t1;
    AddIndent(r2, t2, tail);
    assert "  " + r2 == "  esac\n" + ("done\n" + rest);
    assert t2 == [Bare("esac"), Newline, Bare("done"), Newline] + ts;
  }

  // ---------- the exec line ----------

  function PartTexts(parts: seq<Part>): (r: seq<string>)
    ensures |r| == |parts|
  {
    seq(|parts|, i requires 0 <= i < |parts| => PartText(parts[i]))
  }

  ghost predicate ValidParts(parts: seq<Part>) {
    forall i :: 0 <= i < |parts| ==> ValidPart(parts[i])
  }

  ghost function WordTokens(parts: seq<Part>): (r: seq<Token>)
    requires ValidParts(parts)
    ensures |r| == |parts|
  {
    seq(|parts|, i requires 0 <= i < |parts| => Word(PartPieces(parts[i])))
  }

  lemma AddPart(p: Part, end: End, rest: string, ts: seq<Token>, tail: string)
    requires ValidPart(p) && LexesTo(rest, ts, tail) && end in {Space, Line}
    ensures LexesTo(PartText(p) + EndText(end) + rest, [Word(PartPieces(p))] + EndTokens(end) + ts, tail)
  {
    hide LexesTo, ValidPart, PartText, PartPieces;
    AddItem(Item(Some(p), end), rest, ts, tail);
  }

  lemma {:induction false} AddParts(parts: seq<Part>, rest: string, ts: seq<Token>, tail: string)
    requires parts != [] && ValidParts(parts) && LexesTo(rest, ts, tail)
    ensures LexesTo(Join(PartTexts(parts), " ") + "\n" + rest, WordTokens(parts) + [Newline] + ts, tail)
    decreases |parts|
  {
    hide LexesTo, ValidPart, PartText, PartPieces;
    var texts, tokens := PartTexts(parts), WordTokens(parts);
    var p, more := parts[0], parts[1..];
    if |parts| == 1 {
      AddPart(p, Line, rest, ts, tail);
      assert tokens == [Word(PartPieces(p))];
    } else {
      AddParts(more, rest, ts, tail);
      assert texts[1..] == PartTexts(more) && tokens == [Word(PartPieces(p))] + WordTokens(more);
      var r, t := Join(PartTexts(more), " ") + "\n" + rest, WordTokens(more) + [Newline] + ts;
      AddPart(p, Space, r, t, tail);
      assert PartText(p) + " " + r == Join(texts, " ") + "\n" + rest;
      assert [Word(PartPieces(p))] + [] + t == tokens + [Newline] + ts;
    }
  }

  // ---------- the whole script ----------

  /** The argument words as parts. */
  function ArgPart(args: seq<string>, i: nat): Part
    requires i < |args|
  {
    if IsPlaceholder(args[i]) then Numbered(|Placeholders(args[..i])| + 1) else Single(args[i])
  }

  function ExecParts(executable: string, args: seq<string>): (r: seq<Part>)
    ensures |r| == |args| + 1
  {
    [Single(executable)] + seq(|args|, i requires 0 <= i < |args| => ArgPart(args, i))
  }

  lemma {:induction false} ArgWordsAreParts(args: seq<string>, i: nat)
    requires i < |args|
    ensures ArgWords(args)[i] == PartText(ArgPart(args, i))
  {
    hide IsPlaceholder, ShellQuote, Positional, Placeholders;
    var n := |args| - 1;
    if i < n {
      ArgWordsAreParts(args[..n], i);
      assert args[..n][..i] == args[..i];
    }
  }

  lemma ExecWordsAreParts(executable: string, args: seq<string>)
    ensures [ShellQuote(executable)] + ArgWords(args) == PartTexts(ExecParts(executable, args))
    ensures ValidParts(ExecParts(executable, args))
  {
    hide ShellQuote, Positional, IsPlaceholder, Placeholders, ArgWords;
    var parts := ExecParts(executable, args);
    forall i | 0 <= i < |args| ensures ArgWords(args)[i] == PartText(parts[i + 1]) && ValidPart(parts[i + 1]) {
      ArgWordsAreParts(args, i);
    }
    assert ValidPart(parts[0]);
    assert PartText(parts[0]) == ShellQuote(executable);
  }

  function GuardTokens(n: string, usage: string): seq<Token> {
    [Bare("if"), Bare("["), Word([Count]), Bare("-ne"), Bare(n), Bare("]"), Semicolon, Bare("then"), Newline,
     Bare("echo"), Word(QuotedAll(usage)), DuplicateTo, Bare("2"), Newline,
     Bare("exit"), Bare("64"), Newline, Bare("fi"), Newline]
  }

  function ClauseTokens(): seq<Token> {
    [Bare("case"), Word([Var("arg")]), Bare("in"), Newline,
     Bare("-*"), CloseParen, Bare("echo"), Word(QuotedAll(WARNING)), DuplicateTo, Bare("2"), Semicolon,
     Bare("exit"), Bare("64"), DoubleSemicolon, Newline, Bare("esac"), Newline]
  }

  function LoopTokens(): seq<Token> {
    [Bare("for"), Bare("arg"), Bare("in"), Word([All]), Semicolon, Bare("do"), Newline]
    + ClauseTokens() + [Bare("done"), Newline]
  }

  ghost function ScriptTokens(usage: string, executable: string, args: seq<string>): seq<Token>
    requires ValidParts(ExecParts(executable, args))
  {
    [Newline, Newline] + GuardTokens(Decimal(|Placeholders(args)|), usage) + LoopTokens()
    + ([Bare("exec")] + WordTokens(ExecParts(executable, args)) + [Newline])
  }

  function Usage(path: string, placeholders: seq<string>): string {
    "usage: " + Join([path] + placeholders, " ")
  }

  function ExecLine(executable: string, args: seq<string>): string {
    "exec " + Join([ShellQuote(executable)] + ArgWords(args), " ") + "\n"
  }

  function LoopText(rest: string): string {
    "for arg in \"$@\"; do\n" + ("  case \"$arg\" in\n" + ("    -*) echo " + ShellQuote(WARNING) + " >&2; exit 64 ;;\n"
      + ("  esac\n" + ("done\n" + rest))))
  }

  function GuardText(n: string, usage: string, rest: string): string {
    "if [ \"$#\" -ne " + n + " ]; then\n" + ("  echo " + ShellQuote(usage) + " >&2\n"
      + ("  exit 64\n" + ("fi\n" + rest)))
  }

  const COMMENT := " Generated by sovereign-node: runs exactly one allowlisted command."
  const HEADER := "#" + COMMENT

  lemma ContentText(path: string, executable: string, args: seq<string>)
    ensures Content(path, executable, Placeholders(args), ArgWords(args))
         == "#!/bin/sh\n" + (HEADER + "\n" + GuardText(Decimal(|Placeholders(args)|), Usage(path, Placeholders(args)),
                                 LoopText(ExecLine(executable, args))))
  {
    hide ShellQuote, Usage, ArgWords, Placeholders, Join, Decimal;
    var usage := Usage(path, Placeholders(args));
    UsageText(path, Placeholders(args));
    var execText := "exec " + Join([ShellQuote(executable)] + ArgWords(args), " ");
    assert execText + "\n" == ExecLine(executable, args);
    JoinLines("#!/bin/sh", HEADER, "if [ \"$#\" -ne " + Decimal(|Placeholders(args)|) + " ]; then",
              "  echo " + ShellQuote(usage) + " >&2", "  exit 64", "fi",
              "for arg in \"$@\"; do", "  case \"$arg\" in",
              "    -*) echo " + ShellQuote(WARNING) + " >&2; exit 64 ;;", "  esac", "done", execText);
  }

  lemma UsageText(path: string, placeholders: seq<string>)
    ensures Usage(path, placeholders) == "usage: " + Join([path] + placeholders, " ")
  {
  }

  lemma JoinLines(a: string, b: string, c: string, d: string, e: string, f: string,
                  g: string, h: string, i: string, j: string, k: string, l: string)
    ensures Join([a, b, c, d, e, f, g, h, i, j, k, l, ""], "\n")
         == a + "\n" + (b + "\n" + (c + "\n" + (d + "\n" + (e + "\n" + (f + "\n" + (g + "\n" + (h + "\n"
            + (i + "\n" + (j + "\n" + (k + "\n" + (l + "\n")))))))))))
  {
    hide Join;
    JoinTwo(k, l, [""]);
    JoinTwo(i, j, [k, l, ""]);
    JoinTwo(g, h, [i, j, k, l, ""]);
    JoinTwo(e, f, [g, h, i, j, k, l, ""]);
    JoinTwo(c, d, [e, f, g, h, i, j, k, l, ""]);
    JoinTwo(a, b, [c, d, e, f, g, h, i, j, k, l, ""]);
    JoinOne("");
    assert [k, l] + [""] == [k, l, ""];
    assert [i, j] + [k, l, ""] == [i, j, k, l, ""];
    assert [g, h] + [i, j, k, l, ""] == [g, h, i, j, k, l, ""];
    assert [e, f] + [g, h, i, j, k, l, ""] == [e, f, g, h, i, j, k, l, ""];
    assert [c, d] + [e, f, g, h, i, j, k, l, ""] == [c, d, e, f, g, h, i, j, k, l, ""];
    assert [a, b] + [c, d, e, f, g, h, i, j, k, l, ""] == [a, b, c, d, e, f, g, h, i, j, k, l, ""];
  }

  lemma JoinOne(x: string)
    ensures Join([x], "\n") == x
  {
  }

  lemma JoinTwo(x: string, y: string, rest: seq<string>)
    requires rest != []
    ensures Join([x, y] + rest, "\n") == x + "\n" + (y + "\n" + Join(rest, "\n"))
  {
    var all := [x, y] + rest;
    assert all[1..] == [y] + rest && all[1..][1..] == rest;
  }

  lemma LexExecLine(executable: string, args: seq<string>)
    requires ValidParts(ExecParts(executable, args))
    ensures LexesTo(ExecLine(executable, args), [Bare("exec")] + WordTokens(ExecParts(executable, args)) + [Newline], "")
  {
    hide LexesTo, ValidParts, ExecParts, PartTexts, WordTokens, Join, ShellQuote, ArgWords;
    var parts := ExecParts(executable, args);
    ExecWordsAreParts(executable, args);
    LexesToNothing("");
    AddParts(parts, "", [], "");
    var r, t := Join(PartTexts(parts), " ") + "\n" + "", WordTokens(parts) + [Newline] + [];
    AddWord("exec", r, t, "");
    assert "exec" + " " + r == ExecLine(executable, args);
    assert [Bare("exec")] + t == [Bare("exec")] + WordTokens(parts) + [Newline];
  }

  lemma LexLoop(rest: string, ts: seq<Token>, tail: string)
    requires LexesTo(rest, ts, tail)
    ensures LexesTo(LoopText(rest), LoopTokens() + ts, tail)
  {
    hide LexesTo, ShellQuote;
    AddLoopEnd(rest, ts, tail);
    var r1, t1 := "  esac\n" + ("done\n" + rest), [Bare("esac"), Newline, Bare("done"), Newline] + ts;
    AddClauseLine(r1, t1, tail);
    var t2 := [Bare("-*"), CloseParen, Bare("echo"), Word(QuotedAll(WARNING)), DuplicateTo, Bare("2"), Semicolon,
               Bare("exit"), Bare("64"), DoubleSemicolon, Newline] + t1;
    var r2 := "    -*) echo " + ShellQuote(WARNING) + " >&2; exit 64 ;;\n" + r1;
    AddCaseLine(r2, t2, tail);
    var r3, t3 := "  case \"$arg\" in\n" + r2, [Bare("case"), Word([Var("arg")]), Bare("in"), Newline] + t2;
    AddForLine(r3, t3, tail);
    assert [Bare("for"), Bare("arg"), Bare("in"), Word([All]), Semicolon, Bare("do"), Newline] + t3 == LoopTokens() + ts;
  }

  lemma LexGuard(n: string, usage: string, rest: string, ts: seq<Token>, tail: string)
    requires Ordinary(n) && LexesTo(rest, ts, tail)
    ensures LexesTo(GuardText(n, usage, rest), GuardTokens(n, usage) + ts, tail)
  {
    hide LexesTo, ShellQuote;
    AddUsageLines(usage, rest, ts, tail);
    var r1 := "  echo " + ShellQuote(usage) + " >&2\n" + ("  exit 64\n" + ("fi\n" + rest));
    var t1 := [Bare("echo"), Word(QuotedAll(usage)), DuplicateTo, Bare("2"), Newline,
               Bare("exit"), Bare("64"), Newline, Bare("fi"), Newline] + ts;
    AddIfLine(n, r1, t1, tail);
    assert [Bare("if"), Bare("["), Word([Count]), Bare("-ne"), Bare(n), Bare("]"), Semicolon, Bare("then"), Newline] + t1
        == GuardTokens(n, usage) + ts;
  }

  /** The text of a wrapper lexes to exactly the intended commands, whatever the command's tokens contain. */
  lemma LexContent(path: string, executable: string, args: seq<string>)
    ensures ValidParts(ExecParts(executable, args))
    ensures Lex(Content(path, executable, Placeholders(args), ArgWords(args)), None)
         == Some(ScriptTokens(Usage(path, Placeholders(args)), executable, args))
  {
    hide Lex, GuardText, LoopText, ExecLine, Content, GuardTokens, LoopTokens, Placeholders, Usage, ValidPart, ArgWords;
    hide ExecParts, WordTokens, Decimal;
    var usage, n := Usage(path, Placeholders(args)), Decimal(|Placeholders(args)|);
    ExecWordsAreParts(executable, args);
    var execTokens := [Bare("exec")] + WordTokens(ExecParts(executable, args)) + [Newline];
    LexExecLine(executable, args);
    LexLoop(ExecLine(executable, args), execTokens, "");
    DecimalIsOrdinary(|Placeholders(args)|);
    LexGuard(n, usage, LoopText(ExecLine(executable, args)), LoopTokens() + execTokens, "");
    var body := GuardText(n, usage, LoopText(ExecLine(executable, args)));
    HeaderLines(body);
    ContentText(path, executable, args);
    LexNothing();
    var ts := GuardTokens(n, usage) + (LoopTokens() + execTokens);
    assert Lex(body, None) == Some(ts + []);
    assert [Newline] + ([Newline] + (ts + [])) == ScriptTokens(usage, executable, args);
  }

  lemma LexNothing()
    ensures Lex("", None) == Some([])
  {
  }

  lemma DecimalIsOrdinary(n: nat)
    ensures Ordinary(Decimal(n))
  {
    if n > 0 {
      LeadingDigit(n);
    }
  }

  lemma CommentIsOneLine()
    ensures '\n' !in COMMENT
  {
    assert '\n' !in " Generated by sovereign-node:";
    assert '\n' !in " Generated by sovereign-node: runs exactly one";
  }

  lemma HeaderLines(body: string)
    ensures Lex("#!/bin/sh\n" + (HEADER + "\n" + body), None) == Prepend([Newline], Prepend([Newline], Lex(body, None)))
  {
    hide Lex;
    CommentIsOneLine();
    LexComment(COMMENT, body);
    LexComment("!/bin/sh", HEADER + "\n" + body);
    assert "#" + "!/bin/sh" + "\n" == "#!/bin/sh\n";
  }
}
