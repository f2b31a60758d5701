/**
  The `clone!` declarative macro of the clonelet crate, as a rewrite from the
  tokens of an invocation to the `let` statements it generates.

  The macro has three arms, tried in order:
    1. `$(,)?`                                 - nothing, or a lone comma: no statements;
    2. `$name:ident $(, $($tail:tt)*)?`        - `let $name = $name.clone();` then the tail;
    3. `mut $name:ident $(, $($tail:tt)*)?`    - `let mut $name = $name.clone();` then the tail.
  The tail after the comma is handed back to the macro as a whole, so it is
  matched against the three arms again. An invocation that no arm matches is
  rejected by the compiler; here that is `None`.
 */
module CloneMacro {

  datatype Option<+T> = None | Some(value: T)

  /** A token tree of the invocation. `Other` stands for every token tree that
      is neither an identifier, the keyword `mut` nor a comma: punctuation such
      as `.`, a literal, a bracketed group. */
  datatype Token = Ident(name: string) | Mut | Comma | Other(text: string)

  /** The statement `let [mut] binding = source.clone();`. */
  datatype Stmt = Let(mutable: bool, binding: string, source: string)

  /** A statement in front of the expansion of the tail, or failure if the tail failed. */
  function Cons(s: Stmt, tail: Option<seq<Stmt>>): Option<seq<Stmt>>
  {
    match tail
    case None => None
    case Some(ss) => Some([s] + ss)
  }

  /** Expands the argument tokens of `clone!`. Every generated statement
      clones a name into a binding of that same name, so it shadows the
      original for the rest of the scope. */
  function Expand(ts: seq<Token>): (r: Option<seq<Stmt>>)
    ensures r.Some? ==> forall i :: 0 <= i < |r.value| ==> r.value[i].binding == r.value[i].source
    decreases |ts|
  {
    if |ts| == 0 || (|ts| == 1 && ts[0] == Comma) then
      // arm 1
      Some([])
    else if ts[0].Ident? && (|ts| == 1 || ts[1] == Comma) then
      // arm 2: the optional `, tail` group is absent or present
      var s := Let(false, ts[0].name, ts[0].name);
      if |ts| == 1 then Some([s]) else Cons(s, Expand(ts[2..]))
    else if 2 <= |ts| && ts[0] == Mut && ts[1].Ident? && (|ts| == 2 || ts[2] == Comma) then
      // arm 3
      var s := Let(true, ts[1].name, ts[1].name);
      if |ts| == 2 then Some([s]) else Cons(s, Expand(ts[3..]))
    else
      None
  }
}
