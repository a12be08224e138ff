/**
 * The scanner of internal/lexer/lexer.go.in. A lexer position is the input that
 * is left to read.
 */
module Lexer {
  import opened EvalEnv
  import opened LogicalLines

  datatype Token =
    | ERROR | BUILD | COLON | DEFAULT | EQUALS | IDENT | INCLUDE | INDENT | NEWLINE
    | PIPE2 | PIPE | PIPEAT | POOL | RULE | SUBNINJA | EOF

  datatype Failure =
    | UnexpectedEof
    | BadEscape
    | LexingError
    | Expected(token: Token)
    | ExpectedPath
    | ExpectedRuleName
    | ExpectedVariableName
    | UnknownRule(name: string)
    | DuplicateRule(name: string)
    | UnexpectedVariable
    | IncompleteRule
    | UnexpectedToken(token: Token)
    | NotModelled(token: Token)

  datatype Result<+T> = Ok(value: T, rest: string) | Err(failure: Failure)

  predicate IsSimpleVarChar(c: char)
  {
    'a' <= c <= 'z' || 'A' <= c <= 'Z' || '0' <= c <= '9' || c == '_' || c == '-'
  }

  predicate IsVarChar(c: char) { IsSimpleVarChar(c) || c == '.' }

  function VarLength(s: string): (n: nat)
    ensures n <= |s|
    ensures forall i :: 0 <= i < n ==> IsVarChar(s[i])
    ensures n < |s| ==> !IsVarChar(s[n])
  {
    if s == "" || !IsVarChar(s[0]) then 0 else 1 + VarLength(s[1..])
  }

  function SimpleVarLength(s: string): (n: nat)
    ensures n <= |s|
    ensures forall i :: 0 <= i < n ==> IsSimpleVarChar(s[i])
    ensures n < |s| ==> !IsSimpleVarChar(s[n])
  {
    if s == "" || !IsSimpleVarChar(s[0]) then 0 else 1 + SimpleVarLength(s[1..])
  }

  predicate At(s: string, prefix: string)
  {
    |prefix| <= |s| && s[..|prefix|] == prefix
  }

  function EatWhitespace(s: string): (r: string)
    ensures |r| <= |s|
    decreases |s|
  {
    if s == "" then s
    else if s[0] == ' ' then EatWhitespace(s[1..])
    else if At(s, "$\n") then EatWhitespace(s[2..])
    else if At(s, "$\r\n") then EatWhitespace(s[3..])
    else s
  }

  /** What is left after a comment; an error if the input ends within it. */
  function SkipComment(s: string): (r: Result<()>)
    ensures r.Ok? ==> |r.rest| < |s|
  {
    if s == "" || s[0] == '\0' then Err(LexingError)
    else if s[0] == '\n' then Ok((), s[1..])
    else SkipComment(s[1..])
  }

  function Keyword(word: string): Token
  {
    if word == "build" then BUILD
    else if word == "pool" then POOL
    else if word == "rule" then RULE
    else if word == "default" then DEFAULT
    else if word == "include" then INCLUDE
    else if word == "subninja" then SUBNINJA
    else IDENT
  }

  /** A token, where it started (behind any comments) and what is left after its characters. */
  datatype Lexeme = Lexeme(token: Token, start: string, rest: string)

  function ScanToken(s: string): (r: Lexeme)
    ensures |r.rest| <= |s| && |r.start| <= |s|
    ensures r.token != EOF ==> |r.rest| < |s|
    decreases |s|
  {
    var r := SkipSpaces(s);
    if r != "" && r[0] == '#' && SkipComment(r).Ok? then ScanToken(SkipComment(r).rest)
    else if At(r, "\n") then Lexeme(NEWLINE, s, r[1..])
    else if At(r, "\r\n") then Lexeme(NEWLINE, s, r[2..])
    else if |r| < |s| then Lexeme(INDENT, s, r)
    else ScanVisible(s)
  }

  /** A token with neither spaces, a comment nor a newline in front. */
  function ScanVisible(s: string): (r: Lexeme)
    ensures |r.rest| <= |s| && r.start == s && r.token != INDENT && r.token != NEWLINE
    ensures r.token != EOF ==> |r.rest| < |s|
  {
    if s == "" then Lexeme(EOF, s, "")
    else if s[0] == '\0' then Lexeme(EOF, s, s[1..])
    else if IsVarChar(s[0]) then
      var n := VarLength(s);
      Lexeme(Keyword(s[..n]), s, s[n..])
    else if s[0] == '=' then Lexeme(EQUALS, s, s[1..])
    else if s[0] == ':' then Lexeme(COLON, s, s[1..])
    else if At(s, "|@") then Lexeme(PIPEAT, s, s[2..])
    else if At(s, "||") then Lexeme(PIPE2, s, s[2..])
    else if s[0] == '|' then Lexeme(PIPE, s, s[1..])
    else Lexeme(ERROR, s, s[1..])
  }

  function ReadToken(s: string): (r: Lexeme)
    ensures |r.rest| <= |s| && |r.start| <= |s|
    ensures r.token != EOF ==> |r.rest| < |s|
  {
    var t := ScanToken(s);
    if t.token == NEWLINE || t.token == EOF then t else t.(rest := EatWhitespace(t.rest))
  }

  /** Whether the next token is `token`, and where to go on: a token not wanted is unread. */
  function PeekToken(s: string, token: Token): (r: (bool, string))
    ensures |r.1| <= |s|
    ensures r.0 && token == INDENT ==> |r.1| < |s|
  {
    var t := ReadToken(s);
    if t.token == token then (true, t.rest) else (false, t.start)
  }

  function ReadIdent(s: string): (r: Result<string>)
    ensures r.Ok? ==> |r.rest| <= |s|
  {
    var n := VarLength(s);
    if n == 0 then Err(ExpectedVariableName) else Ok(s[..n], EatWhitespace(s[n..]))
  }

  /** Reads into `eval` up to the end of a path, or of a value when `path` is false. */
  function ScanEvalString(s: string, path: bool, eval: EvalString): (r: Result<EvalString>)
    ensures r.Ok? ==> |r.rest| <= |s|
    ensures r.Ok? && |r.rest| == |s| ==> r.value == eval
    decreases |s|
  {
    if s == "" || s[0] == '\0' then Err(UnexpectedEof)
    else if s[0] == '\n' then Ok(eval, if path then s else s[1..])
    else if s[0] == ' ' || s[0] == ':' || s[0] == '|' then
      if path then Ok(eval, s) else ScanEvalString(s[1..], path, eval.AddText(s[..1]))
    else if s[0] == '\r' then
      if At(s, "\r\n") then Ok(eval, if path then s else s[2..]) else Err(LexingError)
    else if s[0] != '$' then ScanEvalString(s[1..], path, eval.AddText(s[..1]))
    else if At(s, "$$") then ScanEvalString(s[2..], path, eval.AddText("$"))
    else if At(s, "$ ") then ScanEvalString(s[2..], path, eval.AddText(" "))
    else if At(s, "$:") then ScanEvalString(s[2..], path, eval.AddText(":"))
    else if At(s, "$^") then ScanEvalString(s[2..], path, eval.AddText("\n"))
    else if At(s, "$\n") then ScanEvalString(SkipSpaces(s[2..]), path, eval)
    else if At(s, "$\r\n") then ScanEvalString(SkipSpaces(s[3..]), path, eval)
    else if SimpleVarLength(s[1..]) > 0 then
      var n := SimpleVarLength(s[1..]);
      ScanEvalString(s[n + 1..], path, eval.AddSpecial(s[1..n + 1]))
    else if At(s, "${") && At(s[2 + VarLength(s[2..])..], "}") && VarLength(s[2..]) > 0 then
      var n := VarLength(s[2..]);
      ScanEvalString(s[n + 3..], path, eval.AddSpecial(s[2..n + 2]))
    else Err(BadEscape)
  }

  function ReadPath(s: string): (r: Result<EvalString>)
    ensures r.Ok? ==> |r.rest| <= |s|
    ensures r.Ok? && !r.value.Empty() ==> |r.rest| < |s|
  {
    var r := ScanEvalString(s, true, EMPTY);
    if r.Ok? then r.(rest := EatWhitespace(r.rest)) else r
  }

  function ReadVarValue(s: string): (r: Result<EvalString>)
    ensures r.Ok? ==> |r.rest| <= |s|
  {
    ScanEvalString(s, false, EMPTY)
  }
}
