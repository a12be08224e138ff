/** Strings with variable references, as internal/eval_env/eval_env.go holds them. */
module EvalEnv {

  datatype Piece = Raw(value: string) | Special(value: string)

  /** While there are no variable references, the text is kept in `singleToken`. */
  datatype EvalString = EvalString(parsed: seq<Piece>, singleToken: string) {

    function AddText(text: string): EvalString
    {
      if |parsed| == 0 then
        this.(singleToken := singleToken + text)
      else if parsed[|parsed| - 1].Raw? then
        this.(parsed := parsed[..|parsed| - 1] + [Raw(parsed[|parsed| - 1].value + text)])
      else
        this.(parsed := parsed + [Raw(text)])
    }

    function AddSpecial(name: string): EvalString
    {
      if |parsed| == 0 && singleToken != "" then
        EvalString([Raw(singleToken), Special(name)], "")
      else
        this.(parsed := parsed + [Special(name)])
    }

    predicate Empty()
    {
      |parsed| == 0 && singleToken == ""
    }

    function Evaluate(env: string -> string): string
    {
      if |parsed| == 0 then singleToken else EvaluatePieces(parsed, env)
    }
  }

  function EvaluatePieces(pieces: seq<Piece>, env: string -> string): string
  {
    if |pieces| == 0 then ""
    else (if pieces[0].Raw? then pieces[0].value else env(pieces[0].value)) + EvaluatePieces(pieces[1..], env)
  }

  const EMPTY := EvalString([], "")

  /** Plain text without references. */
  function Text(s: string): EvalString { EvalString([], s) }
}
