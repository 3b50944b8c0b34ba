/** A small POSIX sh: the token rules of section 2.3 with the quoting of sections 2.2.1 to 2.2.3, the positional
    and special parameters of section 2.5 inside double quotes, and the few commands the wrappers use.
    Anything else makes the script unsupported rather than guessed at. */
module Shell {
  import opened Wrappers
  import opened Text

  // ---------- tokens ----------

  /** One piece of a word. A quoted character has lost any special meaning it had. */
  datatype Piece =
    | Plain(c: char)
    | Quoted(c: char)
    | Arg(k: nat)
    | Count
    | All
    | Var(name: string)

  datatype Token =
    | Word(pieces: seq<Piece>)
    | Semicolon
    | DoubleSemicolon
    | CloseParen
    | DuplicateTo
    | Newline

  function PlainAll(s: string): (r: seq<Piece>)
    ensures |r| == |s|
  {
    seq(|s|, i requires 0 <= i < |s| => Plain(s[i]))
  }

  function QuotedAll(s: string): (r: seq<Piece>)
    ensures |r| == |s|
  {
    seq(|s|, i requires 0 <= i < |s| => Quoted(s[i]))
  }

  /** An unquoted word. */
  function Bare(s: string): Token {
    Word(PlainAll(s))
  }

  // ---------- the lexer ----------

  predicate IsNameChar(c: char) {
    'a' <= c <= 'z' || 'A' <= c <= 'Z' || c == '_'
  }

  /** Characters with no meaning to the lexer. */
  predicate IsOrdinary(c: char) {
    IsNameChar(c) || '0' <= c <= '9' || c in "[]-*/.:,=+@%{}!"
  }

  function NameLength(s: string): (n: nat)
    ensures n <= |s|
  {
    if s == "" || !IsNameChar(s[0]) then 0 else 1 + NameLength(s[1..])
  }

  /** The inside of double quotes up to the closing quote, and what follows it. */
  function LexDouble(s: string): (r: Option<(seq<Piece>, string)>)
    ensures r.Some? ==> |r.value.1| < |s|
    decreases |s|
  {
    if s == "" || s[0] == '\\' || s[0] == '`' then None
    else if s[0] == '"' then Some(([], s[1..]))
    else if s[0] != '$' then PrependPiece(Quoted(s[0]), LexDouble(s[1..]))
    else if |s| < 2 then None
    else if '1' <= s[1] <= '9' then PrependPiece(Arg(s[1] as nat - '0' as nat), LexDouble(s[2..]))
    else if s[1] == '#' then PrependPiece(Count, LexDouble(s[2..]))
    else if s[1] == '@' then PrependPiece(All, LexDouble(s[2..]))
    else if IsNameChar(s[1]) then
      var n := NameLength(s[1..]);
      PrependPiece(Var(s[1..1 + n]), LexDouble(s[1 + n..]))
    else None
  }

  function PrependPiece(p: Piece, r: Option<(seq<Piece>, string)>): Option<(seq<Piece>, string)> {
    if r.None? then None else Some(([p] + r.value.0, r.value.1))
  }

  type Tokens = Option<seq<Token>>

  function Prepend(ts: seq<Token>, r: Tokens): Tokens {
    if r.None? then None else Some(ts + r.value)
  }

  function Pieces(current: Option<seq<Piece>>): seq<Piece> {
    if current.None? then [] else current.value
  }

  function Flush(current: Option<seq<Piece>>): seq<Token> {
    if current.None? then [] else [Word(current.value)]
  }

  function AfterComment(s: string): (r: string)
    ensures |r| <= |s|
  {
    if s == "" || s[0] == '\n' then s else AfterComment(s[1..])
  }

  function Lex(s: string, current: Option<seq<Piece>>): Tokens
    decreases |s|
  {
    if s == "" then Some(Flush(current))
    else if s[0] == '\'' then
      var k := IndexOf(s[1..], "'");
      if k.None? then None
      else Lex(s[1..][k.value + 1..], Some(Pieces(current) + QuotedAll(s[1..][..k.value])))
    else if s[0] == '\\' then
      if |s| < 2 || s[1] == '\n' then None else Lex(s[2..], Some(Pieces(current) + [Quoted(s[1])]))
    else if s[0] == '"' then
      var d := LexDouble(s[1..]);
      if d.None? then None else Lex(d.value.1, Some(Pieces(current) + d.value.0))
    else if s[0] == ' ' || s[0] == '\t' then Prepend(Flush(current), Lex(s[1..], None))
    else if s[0] == '\n' then Prepend(Flush(current) + [Newline], Lex(s[1..], None))
    else if s[0] == ';' then
      if |s| > 1 && s[1] == ';' then Prepend(Flush(current) + [DoubleSemicolon], Lex(s[2..], None))
      else Prepend(Flush(current) + [Semicolon], Lex(s[1..], None))
    else if s[0] == ')' then Prepend(Flush(current) + [CloseParen], Lex(s[1..], None))
    else if s[0] == '>' then
      if |s| > 1 && s[1] == '&' then Prepend(Flush(current) + [DuplicateTo], Lex(s[2..], None)) else None
    else if s[0] == '#' && current.None? then Lex(AfterComment(s[1..]), None)
    else if IsOrdinary(s[0]) then Lex(s[1..], Some(Pieces(current) + [Plain(s[0])]))
    else None
  }

  // One unfolding of the lexer for each kind of character.

  lemma LexOrdinary(s: string, current: Option<seq<Piece>>)
    requires s != "" && IsOrdinary(s[0])
    ensures Lex(s, current) == Lex(s[1..], Some(Pieces(current) + [Plain(s[0])]))
  {
  }

  lemma LexSingleQuotes(body: string, rest: string, current: Option<seq<Piece>>)
    requires '\'' !in body
    ensures Lex("'" + body + "'" + rest, current) == Lex(rest, Some(Pieces(current) + QuotedAll(body)))
  {
    var s := "'" + body + "'" + rest;
    assert s[1..] == body + ['\''] + rest;
    IndexOfCharacter(body, '\'', rest);
    assert s[1..][|body| + 1..] == rest && s[1..][..|body|] == body;
  }

  lemma LexBackslash(c: char, rest: string, current: Option<seq<Piece>>)
    requires c != '\n'
    ensures Lex(['\\', c] + rest, current) == Lex(rest, Some(Pieces(current) + [Quoted(c)]))
  {
    assert (['\\', c] + rest)[2..] == rest;
  }

  lemma LexDoubleQuotes(inner: string, pieces: seq<Piece>, rest: string, current: Option<seq<Piece>>)
    requires LexDouble(inner) == Some((pieces, rest))
    ensures Lex("\"" + inner, current) == Lex(rest, Some(Pieces(current) + pieces))
  {
    assert ("\"" + inner)[1..] == inner;
  }

  lemma LexSpace(rest: string, current: Option<seq<Piece>>)
    ensures Lex(" " + rest, current) == Prepend(Flush(current), Lex(rest, None))
  {
    assert (" " + rest)[1..] == rest;
  }

  lemma LexNewline(rest: string, current: Option<seq<Piece>>)
    ensures Lex("\n" + rest, current) == Prepend(Flush(current) + [Newline], Lex(rest, None))
  {
    assert ("\n" + rest)[1..] == rest;
  }

  lemma LexSemicolon(rest: string, current: Option<seq<Piece>>)
    requires rest == "" || rest[0] != ';'
    ensures Lex(";" + rest, current) == Prepend(Flush(current) + [Semicolon], Lex(rest, None))
  {
    assert (";" + rest)[1..] == rest;
  }

  lemma LexDoubleSemicolon(rest: string, current: Option<seq<Piece>>)
    ensures Lex(";;" + rest, current) == Prepend(Flush(current) + [DoubleSemicolon], Lex(rest, None))
  {
    assert (";;" + rest)[2..] == rest;
  }

  lemma LexCloseParen(rest: string, current: Option<seq<Piece>>)
    ensures Lex(")" + rest, current) == Prepend(Flush(current) + [CloseParen], Lex(rest, None))
  {
    assert (")" + rest)[1..] == rest;
  }

  lemma LexDuplicate(rest: string, current: Option<seq<Piece>>)
    ensures Lex(">&" + rest, current) == Prepend(Flush(current) + [DuplicateTo], Lex(rest, None))
  {
    assert (">&" + rest)[2..] == rest;
  }

  lemma LexComment(text: string, rest: string)
    requires '\n' !in text
    ensures Lex("#" + text + "\n" + rest, None) == Prepend([Newline], Lex(rest, None))
  {
    var s := "#" + text + "\n" + rest;
    assert s[1..] == text + ("\n" + rest);
    CommentEnds(text, "\n" + rest);
    LexNewline(rest, None);
    assert Flush(None) + [Newline] == [Newline];
  }

  lemma {:induction false} CommentEnds(text: string, rest: string)
    requires '\n' !in text && rest != "" && rest[0] == '\n'
    ensures AfterComment(text + rest) == rest
  {
    if text == "" {
      assert text + rest == rest;
    } else {
      assert (text + rest)[1..] == text[1..] + rest;
      CommentEnds(text[1..], rest);
    }
  }

  // ---------- expansion ----------

  datatype Env = Env(args: seq<string>, vars: map<string, string>)

  /** What one piece of a double-quoted or literal word stands for. An unquoted glob is not supported here. */
  function ExpandPiece(p: Piece, env: Env): Option<string> {
    match p
    case Plain(c) => if c == '*' then None else Some([c])
    case Quoted(c) => Some([c])
    case Arg(k) => Some(if 1 <= k <= |env.args| then env.args[k - 1] else "")
    case Count => Some(Decimal(|env.args|))
    case All => None
    case Var(name) => Some(if name in env.vars then env.vars[name] else "")
  }

  function ExpandPieces(ps: seq<Piece>, env: Env): Option<string> {
    if ps == [] then Some("")
    else
      var first, rest := ExpandPiece(ps[0], env), ExpandPieces(ps[1..], env);
      if first.None? || rest.None? then None else Some(first.value + rest.value)
  }

  /** The fields a word becomes: one, except that a lone "$@" becomes one per argument. */
  function ExpandWord(w: Token, env: Env): Option<seq<string>>
    requires w.Word?
  {
    if w.pieces == [All] then Some(env.args)
    else
      var one := ExpandPieces(w.pieces, env);
      if one.None? then None else Some([one.value])
  }

  function ExpandWords(ws: seq<Token>, env: Env): Option<seq<string>> {
    if ws == [] then Some([])
    else if !ws[0].Word? then None
    else
      var first, rest := ExpandWord(ws[0], env), ExpandWords(ws[1..], env);
      if first.None? || rest.None? then None else Some(first.value + rest.value)
  }

  /** Pattern matching of section 2.13.1: an unquoted asterisk matches any string, any other piece itself. */
  predicate Matches(pattern: seq<Piece>, s: string)
    decreases |pattern| + |s|
  {
    if pattern == [] then s == ""
    else if pattern[0] == Plain('*') then
      Matches(pattern[1..], s) || (s != "" && Matches(pattern, s[1..]))
    else if pattern[0].Plain? || pattern[0].Quoted? then
      s != "" && s[0] == pattern[0].c && Matches(pattern[1..], s[1..])
    else false
  }

  // ---------- commands ----------

  datatype Outcome = Exit(code: nat) | Exec(argv: seq<string>) | Done | Unsupported

  /** Where a token first stands. */
  function Find(ts: seq<Token>, t: Token): (n: nat)
    ensures n <= |ts| && (n < |ts| ==> ts[n] == t) && forall i :: 0 <= i < n ==> ts[i] != t
  {
    if ts == [] || ts[0] == t then 0 else 1 + Find(ts[1..], t)
  }

  function EndOfCommand(ts: seq<Token>): (n: nat)
    ensures n <= |ts|
    ensures n < |ts| ==> ts[n] in {Newline, Semicolon, DoubleSemicolon}
    ensures forall i :: 0 <= i < n ==> ts[i] !in {Newline, Semicolon, DoubleSemicolon}
  {
    if ts == [] || ts[0] in {Newline, Semicolon, DoubleSemicolon} then 0 else 1 + EndOfCommand(ts[1..])
  }

  /** The test utility, for the one operator the wrappers use. */
  function Test(ws: seq<Token>, env: Env): Option<bool> {
    var f := ExpandWords(ws, env);
    if f.Some? && |f.value| == 5 && f.value[0] == "[" && f.value[4] == "]" && f.value[2] == "-ne"
       && IsNumeral(f.value[1], Ten) && IsNumeral(f.value[3], Ten)
    then Some(ParseNumeral(f.value[1], Ten) != ParseNumeral(f.value[3], Ten))
    else None
  }

  /** Runs a command list. A branch that falls through goes on after its closing word. */
  function Run(ts: seq<Token>, env: Env): Outcome
    decreases |ts|, 3
  {
    if ts == [] then Done
    else if ts[0] in {Newline, Semicolon, Bare("fi")} then Run(ts[1..], env)
    else if ts[0] == Bare("if") then RunIf(ts, env)
    else if ts[0] == Bare("for") then RunFor(ts, env)
    else if ts[0] == Bare("case") then RunCase(ts, env)
    else if ts[0] == Bare("echo") then Run(ts[EndOfCommand(ts)..], env)
    else if ts[0] == Bare("exit") then
      var code := if |ts| > 1 && ts[1].Word? then ExpandPieces(ts[1].pieces, env) else None;
      if code.Some? && IsNumeral(code.value, Ten) then Exit(ParseNumeral(code.value, Ten)) else Unsupported
    else if ts[0] == Bare("exec") then
      var argv := ExpandWords(ts[1..EndOfCommand(ts)], env);
      if argv.Some? then Exec(argv.value) else Unsupported
    else Unsupported
  }

  /** if TEST ; then LIST fi */
  function RunIf(ts: seq<Token>, env: Env): Outcome
    requires ts != [] && ts[0] == Bare("if")
    decreases |ts|, 1
  {
    var semi := Find(ts, Semicolon);
    var fi := Find(ts, Bare("fi"));
    if semi + 1 < fi < |ts| && ts[semi + 1] == Bare("then") then
      var truth := Test(ts[1..semi], env);
      if truth.None? then Unsupported
      else if truth.value then Run(ts[semi + 2..], env)
      else Run(ts[fi + 1..], env)
    else Unsupported
  }

  /** for NAME in WORD ; do LIST done */
  function RunFor(ts: seq<Token>, env: Env): Outcome
    requires ts != [] && ts[0] == Bare("for")
    decreases |ts|, 1
  {
    var done := Find(ts, Bare("done"));
    if 6 <= done < |ts| && ts[1].Word? && ts[2] == Bare("in") && ts[3].Word? && ts[4] == Semicolon && ts[5] == Bare("do") then
      var name := ExpandPieces(ts[1].pieces, env);
      var values := ExpandWord(ts[3], env);
      if name.None? || values.None? then Unsupported
      else
        var body := RunEach(ts[6..done], name.value, values.value, env);
        if body.Done? then Run(ts[done + 1..], env) else body
    else Unsupported
  }

  function RunEach(body: seq<Token>, name: string, values: seq<string>, env: Env): Outcome
    decreases |body|, 4, |values|
  {
    if values == [] then Done
    else
      var first := Run(body, env.(vars := env.vars[name := values[0]]));
      if first.Done? then RunEach(body, name, values[1..], env) else first
  }

  /** case WORD in NEWLINE PATTERN ) LIST ;; NEWLINE esac */
  function RunCase(ts: seq<Token>, env: Env): Outcome
    requires ts != [] && ts[0] == Bare("case")
    decreases |ts|, 1
  {
    var end := Find(ts, DoubleSemicolon);
    if 6 <= end && end + 2 < |ts| && ts[1].Word? && ts[2] == Bare("in") && ts[3] == Newline && ts[4].Word?
       && ts[5] == CloseParen && ts[end + 1] == Newline && ts[end + 2] == Bare("esac") then
      var subject := ExpandPieces(ts[1].pieces, env);
      if subject.None? then Unsupported
      else if Matches(ts[4].pieces, subject.value) then
        var body := Run(ts[6..end], env);
        if body.Done? then Run(ts[end + 3..], env) else body
      else Run(ts[end + 3..], env)
    else Unsupported
  }

  function RunScript(script: string, args: seq<string>): Outcome {
    var ts := Lex(script, None);
    if ts.None? then Unsupported else Run(ts.value, Env(args, map[]))
  }
}
