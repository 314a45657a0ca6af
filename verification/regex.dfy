/** The regular-expression engine, left uninterpreted. Every property proved about the
    pattern lists holds for whatever language of sources compiles and whatever a
    compiled expression matches. */
module Regex {

  /** An engine: which source strings compile (`regexp.Compile` returns no error)
      and whether a compiled source matches somewhere in an input (`MatchString`). */
  datatype Engine = Engine(valid: string -> bool, matches: (string, string) -> bool)

  /** A `*regexp.Regexp`: either the nil pointer or a compiled expression, which
      remembers its source (`Regexp.String()`). */
  datatype Regexp = Nil | Compiled(expr: string)

  /** No entry of the list is the nil pointer. */
  predicate AllCompiled(ps: seq<Regexp>) {
    forall i :: 0 <= i < |ps| ==> ps[i].Compiled?
  }
}
