/**
  The argument lists `clone!` accepts, stated as a grammar rather than as the
  macro's arms: a comma-separated list of arguments `x` or `mut x`
  (`Join`), followed by some number of trailing commas (`Commas`, `Layout`),
  and the statements such a list produces, one per argument, in order.
  Which numbers of trailing commas are accepted (`Admissible`) is what the
  arms at src/lib.rs:33-36 do; the crate's documentation does not mention
  trailing commas.
 */
module ArgumentList {
  import opened CloneMacro

  /** One argument: `name`, or `mut name` when `mutable`. */
  datatype Arg = Arg(mutable: bool, name: string)

  /** The tokens that write one argument. */
  function ArgTokens(a: Arg): seq<Token>
  {
    if a.mutable then [Mut, Ident(a.name)] else [Ident(a.name)]
  }

  /** Arguments separated by commas, with no comma before the first or after the last. */
  function Join(args: seq<Arg>): seq<Token>
  {
    if args == [] then []
    else if |args| == 1 then ArgTokens(args[0])
    else ArgTokens(args[0]) + [Comma] + Join(args[1..])
  }

  /** `c` commas in a row. */
  function Commas(c: nat): seq<Token>
  {
    seq(c, _ => Comma)
  }

  /** The argument list `args` written out with `c` trailing commas. */
  function Layout(args: seq<Arg>, c: nat): seq<Token>
  {
    Join(args) + Commas(c)
  }

  /** The trailing commas the macro accepts after `args`: none or one, and two
      when there is at least one argument. The `c == 2` case is not documented
      behaviour: it records that after the last argument's comma the tail is a
      lone comma, which arm 1 (src/lib.rs:33) accepts on its own. */
  predicate Admissible(args: seq<Arg>, c: nat)
  {
    c <= 1 || (c == 2 && args != [])
  }

  /** The statement an argument is meant to produce: a clone of the name,
      bound to the same name. */
  function Statement(a: Arg): Stmt
  {
    Let(a.mutable, a.name, a.name)
  }

  /** The statements of an argument list, one per argument, in order. */
  function Statements(args: seq<Arg>): seq<Stmt>
  {
    seq(|args|, i requires 0 <= i < |args| => Statement(args[i]))
  }

  /** The argument a statement was generated from. */
  function ArgOf(s: Stmt): Arg
  {
    Arg(s.mutable, s.binding)
  }

  /** The arguments a sequence of statements was generated from, in order. */
  function ArgsOf(ss: seq<Stmt>): seq<Arg>
  {
    seq(|ss|, i requires 0 <= i < |ss| => ArgOf(ss[i]))
  }

  /** The names the identifiers of a token sequence carry, in order. */
  function IdentNames(ts: seq<Token>): seq<string>
  {
    if ts == [] then []
    else (if ts[0].Ident? then [ts[0].name] else []) + IdentNames(ts[1..])
  }

  /** The names the statements bind, in order. */
  function Bindings(ss: seq<Stmt>): seq<string>
  {
    seq(|ss|, i requires 0 <= i < |ss| => ss[i].binding)
  }
}
