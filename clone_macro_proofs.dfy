/**
  What `clone!` does with the argument lists it is given: which lists it
  accepts, how many statements it generates, in which order, with which names
  and which mutability, and which invocations it rejects.
 */
module CloneMacroProofs {
  import opened CloneMacro
  import opened ArgumentList

  /** Both expansions concatenated, or failure if either failed. */
  function Append(x: Option<seq<Stmt>>, y: Option<seq<Stmt>>): Option<seq<Stmt>>
  {
    if x.Some? && y.Some? then Some(x.value + y.value) else None
  }

  // ---------------------------------------------------------------------------
  // One step of the rewrite

  /** An argument is followed by nothing, by `, tail` or by something else. In
      the first case it expands to its own statement; in the second to its own
      statement in front of the expansion of `tail`; in the third the
      invocation is rejected. */
  lemma ExpandArgument(a: Arg, rest: seq<Token>)
    ensures Expand(ArgTokens(a) + rest) ==
      if rest == [] then Some([Statement(a)])
      else if rest[0] == Comma then Cons(Statement(a), Expand(rest[1..]))
      else None
  {
    var ts := ArgTokens(a) + rest;
    if a.mutable {
      assert ts[0] == Mut && ts[1] == Ident(a.name);
      if rest != [] {
        assert ts[2] == rest[0];
        assert ts[3..] == rest[1..];
      }
    } else {
      assert ts[0] == Ident(a.name);
      if rest != [] {
        assert ts[1] == rest[0];
        assert ts[2..] == rest[1..];
      }
    }
  }

  /** A leading comma is accepted only as the whole invocation. */
  lemma ExpandLeadingComma(rest: seq<Token>)
    ensures Expand([Comma] + rest) == if rest == [] then Some([]) else None
  {
    if rest != [] {
      assert ([Comma] + rest)[0] == Comma;
      assert [Comma] + rest != [Comma];
    }
  }

  lemma StatementsCons(args: seq<Arg>)
    requires args != []
    ensures Statements(args) == [Statement(args[0])] + Statements(args[1..])
  {
    assert Statements(args)[1..] == Statements(args[1..]);
  }

  lemma ArgsOfCons(s: Stmt, ss: seq<Stmt>)
    ensures ArgsOf([s] + ss) == [ArgOf(s)] + ArgsOf(ss)
  {
    assert ArgsOf([s] + ss)[1..] == ArgsOf(ss);
  }

  lemma CommasTail(c: nat)
    requires 0 < c
    ensures Commas(c) == [Comma] + Commas(c - 1)
  {
    assert Commas(c)[1..] == Commas(c - 1);
  }

  lemma JoinCons(a: Arg, args: seq<Arg>)
    requires args != []
    ensures Join([a] + args) == ArgTokens(a) + [Comma] + Join(args)
  {
    assert ([a] + args)[1..] == args;
  }

  // ---------------------------------------------------------------------------
  // Well-formed lists are accepted, with one statement per argument

  /** An argument list with an admissible number of trailing commas expands
      to one statement per argument, in the order written, each binding the
      argument's name to a clone of that name and mutable exactly when the
      argument is written `mut`. */
  lemma {:induction false} ExpandLayout(args: seq<Arg>, c: nat)
    requires Admissible(args, c)
    ensures Expand(Layout(args, c)) == Some(Statements(args))
    ensures |Expand(Layout(args, c)).value| == |args|
    ensures forall i :: 0 <= i < |args| ==>
      Expand(Layout(args, c)).value[i] == Let(args[i].mutable, args[i].name, args[i].name)
    decreases |args|
  {
    if |args| == 0 {
      if c == 1 {
        assert Layout(args, c) == [Comma];
      } else {
        assert Layout(args, c) == [];
      }
    } else if |args| == 1 {
      assert Layout(args, c) == ArgTokens(args[0]) + Commas(c);
      ExpandArgument(args[0], Commas(c));
      if 0 < c {
        CommasTail(c);
        if c == 2 {
          assert Commas(1) == [Comma];
        }
      }
      assert [Statement(args[0])] + [] == [Statement(args[0])];
      assert Statements(args) == [Statement(args[0])];
    } else {
      assert Layout(args, c) == ArgTokens(args[0]) + [Comma] + Layout(args[1..], c);
      ExpandArgumentComma(args[0], Layout(args[1..], c));
      ExpandLayout(args[1..], c);
      StatementsCons(args);
    }
  }

  /** Too many trailing commas are rejected: two after an empty list, three or
      more after any list. */
  lemma {:induction false} ExpandRejectsExtraCommas(args: seq<Arg>, c: nat)
    requires !Admissible(args, c)
    ensures Expand(Layout(args, c)) == None
    decreases |args|
  {
    if |args| == 0 {
      CommasTail(c);
      assert Layout(args, c) == [Comma] + Commas(c - 1);
      ExpandLeadingComma(Commas(c - 1));
    } else if |args| == 1 {
      assert Layout(args, c) == ArgTokens(args[0]) + Commas(c);
      ExpandArgument(args[0], Commas(c));
      CommasTail(c);
      ExpandRejectsExtraCommas([], c - 1);
      assert Layout([], c - 1) == Commas(c - 1);
    } else {
      assert Layout(args, c) == ArgTokens(args[0]) + [Comma] + Layout(args[1..], c);
      ExpandArgumentComma(args[0], Layout(args[1..], c));
      ExpandRejectsExtraCommas(args[1..], c);
    }
  }

  /** For a written list, acceptance is exactly admissibility of its trailing commas. */
  lemma ExpandLayoutSucceedsIff(args: seq<Arg>, c: nat)
    ensures Expand(Layout(args, c)).Some? <==> Admissible(args, c)
  {
    if Admissible(args, c) {
      ExpandLayout(args, c);
    } else {
      ExpandRejectsExtraCommas(args, c);
    }
  }

  // ---------------------------------------------------------------------------
  // Only well-formed lists are accepted

  /** Every accepted invocation is an argument list written out with an
      admissible number of trailing commas, and the arguments are those the
      generated statements come from, in order. */
  lemma {:induction false} ExpandOnlyLayouts(ts: seq<Token>)
    requires Expand(ts).Some?
    ensures exists c: nat :: Admissible(ArgsOf(Expand(ts).value), c) && ts == Layout(ArgsOf(Expand(ts).value), c)
    decreases |ts|, 1
  {
    if |ts| == 0 {
      assert Layout([], 0) == ts;
      assert Admissible(ArgsOf(Expand(ts).value), 0);
    } else if |ts| == 1 && ts[0] == Comma {
      assert Layout([], 1) == [Comma] == ts;
      assert Admissible(ArgsOf(Expand(ts).value), 1);
    } else if ts[0].Ident? {
      assert ts == ArgTokens(Arg(false, ts[0].name)) + ts[1..];
      OnlyLayoutsAfterArgument(Arg(false, ts[0].name), ts[1..]);
    } else {
      assert ts == ArgTokens(Arg(true, ts[1].name)) + ts[2..];
      OnlyLayoutsAfterArgument(Arg(true, ts[1].name), ts[2..]);
    }
  }

  lemma {:induction false} OnlyLayoutsAfterArgument(a: Arg, rest: seq<Token>)
    requires Expand(ArgTokens(a) + rest).Some?
    ensures var ts := ArgTokens(a) + rest;
      exists c: nat :: Admissible(ArgsOf(Expand(ts).value), c) && ts == Layout(ArgsOf(Expand(ts).value), c)
    decreases |rest|, 0
  {
    var ts := ArgTokens(a) + rest;
    var r := Expand(ts).value;
    if rest == [] {
      assert r == [Statement(a)] by {
        ExpandArgument(a, rest);
      }
      assert ArgsOf(r) == [a] by {
        ArgsOfCons(Statement(a), []);
        assert [Statement(a)] + [] == [Statement(a)];
      }
      assert Layout([a], 0) == ts;
      assert Admissible(ArgsOf(r), 0);
    } else {
      var tail := rest[1..];
      assert ts == ArgTokens(a) + [Comma] + tail && Expand(tail).Some? && r == [Statement(a)] + Expand(tail).value by {
        ExpandArgument(a, rest);
        assert rest == [Comma] + tail;
      }
      var r' := Expand(tail).value;
      ExpandOnlyLayouts(tail);
      var c': nat :| Admissible(ArgsOf(r'), c') && tail == Layout(ArgsOf(r'), c');
      LayoutCons(a, r', c');
    }
  }

  /** An argument, a comma and a written list form a written list, whose
      arguments are those of the statements with the argument's own in front. */
  lemma LayoutCons(a: Arg, ss: seq<Stmt>, c: nat)
    requires Admissible(ArgsOf(ss), c)
    ensures exists c0: nat ::
      && Admissible(ArgsOf([Statement(a)] + ss), c0)
      && ArgTokens(a) + [Comma] + Layout(ArgsOf(ss), c) == Layout(ArgsOf([Statement(a)] + ss), c0)
  {
    var args := ArgsOf(ss);
    ArgsOfCons(Statement(a), ss);
    assert ArgsOf([Statement(a)] + ss) == [a] + args;
    if args == [] {
      CommasTail(c + 1);
      assert Join([a]) == ArgTokens(a);
      assert ArgTokens(a) + [Comma] + Layout(args, c) == Layout([a] + args, c + 1);
      assert Admissible([a] + args, c + 1);
    } else {
      JoinCons(a, args);
      assert ArgTokens(a) + [Comma] + Layout(args, c) == Layout([a] + args, c);
      assert Admissible([a] + args, c);
    }
  }

  /** `clone!` accepts an invocation exactly when it is a list of arguments
      `x` / `mut x` separated by commas and followed by an admissible number
      of trailing commas. */
  lemma ExpandSucceedsIff(ts: seq<Token>)
    ensures Expand(ts).Some? <==> exists args: seq<Arg>, c: nat :: Admissible(args, c) && ts == Layout(args, c)
  {
    if Expand(ts).Some? {
      ExpandOnlyLayouts(ts);
    }
    if exists args: seq<Arg>, c: nat :: Admissible(args, c) && ts == Layout(args, c) {
      var args: seq<Arg>, c: nat :| Admissible(args, c) && ts == Layout(args, c);
      ExpandLayout(args, c);
    }
  }

  /** The names the statements bind are the identifiers of the invocation, in
      the order written. */
  lemma {:induction false} ExpandKeepsNames(ts: seq<Token>)
    requires Expand(ts).Some?
    ensures Bindings(Expand(ts).value) == IdentNames(ts)
    decreases |ts|, 1
  {
    if |ts| == 0 {
    } else if |ts| == 1 && ts[0] == Comma {
      assert ts[1..] == [];
    } else if ts[0].Ident? {
      assert ts == ArgTokens(Arg(false, ts[0].name)) + ts[1..];
      KeepsNamesAfterArgument(Arg(false, ts[0].name), ts[1..]);
    } else {
      assert ts == ArgTokens(Arg(true, ts[1].name)) + ts[2..];
      KeepsNamesAfterArgument(Arg(true, ts[1].name), ts[2..]);
    }
  }

  lemma IdentNamesArgument(a: Arg, rest: seq<Token>)
    ensures IdentNames(ArgTokens(a) + rest) == [a.name] + IdentNames(rest)
  {
    var ts := ArgTokens(a) + rest;
    assert ts[1..] == ArgTokens(a)[1..] + rest;
    if a.mutable {
      assert ts[1..][1..] == rest;
    }
  }

  lemma IdentNamesComma(tail: seq<Token>)
    ensures IdentNames([Comma] + tail) == IdentNames(tail)
  {
    assert ([Comma] + tail)[1..] == tail;
  }

  lemma {:induction false} KeepsNamesAfterArgument(a: Arg, rest: seq<Token>)
    requires Expand(ArgTokens(a) + rest).Some?
    ensures Bindings(Expand(ArgTokens(a) + rest).value) == IdentNames(ArgTokens(a) + rest)
    decreases |rest|, 0
  {
    var ts := ArgTokens(a) + rest;
    var r := Expand(ts).value;
    IdentNamesArgument(a, rest);
    if rest == [] {
      assert r == [Statement(a)] by {
        ExpandArgument(a, rest);
      }
    } else {
      var tail := rest[1..];
      assert Expand(tail).Some? && r == [Statement(a)] + Expand(tail).value && rest[0] == Comma by {
        ExpandArgument(a, rest);
      }
      ExpandKeepsNames(tail);
      IdentNamesComma(tail);
      assert [Comma] + tail == rest;
      assert Bindings(r)[1..] == Bindings(Expand(tail).value);
    }
  }

  // ---------------------------------------------------------------------------
  // Splitting a list at a comma

  lemma {:induction false} ExpandJoinSplit(xs: seq<Arg>, b: seq<Token>)
    requires xs != []
    ensures Expand(Join(xs) + [Comma] + b) == Append(Some(Statements(xs)), Expand(b))
    decreases |xs|
  {
    if |xs| == 1 {
      assert Join(xs) == ArgTokens(xs[0]);
      ExpandArgumentComma(xs[0], b);
      assert Statements(xs) == [Statement(xs[0])];
    } else {
      var more := Join(xs[1..]) + [Comma] + b;
      JoinCommaTokens(xs, b);
      ExpandArgumentComma(xs[0], more);
      ExpandJoinSplit(xs[1..], b);
      ConsAppend(Statement(xs[0]), Statements(xs[1..]), Expand(b));
      StatementsCons(xs);
    }
  }

  /** An argument, a comma, then more tokens: the argument's statement in
      front of the expansion of those tokens. */
  lemma ExpandArgumentComma(a: Arg, more: seq<Token>)
    ensures Expand(ArgTokens(a) + [Comma] + more) == Cons(Statement(a), Expand(more))
  {
    assert ArgTokens(a) + [Comma] + more == ArgTokens(a) + ([Comma] + more);
    ExpandArgument(a, [Comma] + more);
    assert ([Comma] + more)[1..] == more;
  }

  lemma JoinCommaTokens(xs: seq<Arg>, b: seq<Token>)
    requires 1 < |xs|
    ensures Join(xs) + [Comma] + b == ArgTokens(xs[0]) + [Comma] + (Join(xs[1..]) + [Comma] + b)
  {
    var head, rest := ArgTokens(xs[0]) + [Comma], Join(xs[1..]);
    assert Join(xs) == head + rest;
    AppendAssociates(head, rest, [Comma] + b);
    AppendAssociates(head + rest, [Comma], b);
    AppendAssociates(rest, [Comma], b);
  }

  /** Concatenation of token sequences associates; kept apart so that the
      solver proves it without the definitions of the grammar in scope. */
  lemma AppendAssociates(x: seq<Token>, y: seq<Token>, z: seq<Token>)
    ensures (x + y) + z == x + (y + z)
  {
  }

  lemma ConsAppend(s: Stmt, ss: seq<Stmt>, e: Option<seq<Stmt>>)
    ensures Cons(s, Append(Some(ss), e)) == Append(Some([s] + ss), e)
  {
    if e.Some? {
      assert [s] + (ss + e.value) == ([s] + ss) + e.value;
    }
  }

  /** An accepted list with no trailing comma, a comma, then more tokens:
      the expansion is the statements of the first part followed by those of
      the rest, and it succeeds exactly when the rest does. */
  lemma ExpandSplit(a: seq<Token>, b: seq<Token>)
    requires Expand(a).Some? && a != [] && a[|a| - 1] != Comma
    ensures Expand(a + [Comma] + b) == Append(Expand(a), Expand(b))
    ensures Expand(a + [Comma] + b).Some? <==> Expand(b).Some?
  {
    ExpandOnlyLayouts(a);
    var args := ArgsOf(Expand(a).value);
    var c :| Admissible(args, c) && a == Layout(args, c);
    assert a == Join(args);
    ExpandLayout(args, 0);
    assert Layout(args, 0) == a;
    ExpandJoinSplit(args, b);
  }

  // ---------------------------------------------------------------------------
  // Rejected invocations

  /** A comma in front of an argument is rejected. */
  lemma RejectLeadingComma(ts: seq<Token>)
    requires ts != []
    ensures Expand([Comma] + ts) == None
  {
    ExpandLeadingComma(ts);
  }

  /** Two arguments with no comma between them are rejected. */
  lemma RejectMissingComma(x: Arg, y: Arg, rest: seq<Token>)
    ensures Expand(ArgTokens(x) + ArgTokens(y) + rest) == None
  {
    assert ArgTokens(x) + ArgTokens(y) + rest == ArgTokens(x) + (ArgTokens(y) + rest);
    ExpandArgument(x, ArgTokens(y) + rest);
  }

  /** `mut` not followed by an identifier is rejected. */
  lemma RejectDanglingMut(ts: seq<Token>)
    requires ts == [] || !ts[0].Ident?
    ensures Expand([Mut] + ts) == None
  {
    if ts != [] {
      assert ([Mut] + ts)[1] == ts[0];
    }
  }

  /** A token tree other than an identifier, `mut` or a comma cannot start an argument. */
  lemma RejectOtherToken(t: string, ts: seq<Token>)
    ensures Expand([Other(t)] + ts) == None
  {
  }

  /** Two commas followed by anything more are rejected, at the start of the
      list or after any number of arguments. */
  lemma RejectDoubleComma(xs: seq<Arg>, ts: seq<Token>)
    requires ts != []
    ensures Expand(Join(xs) + [Comma, Comma] + ts) == None
  {
    if xs == [] {
      assert Join(xs) + [Comma, Comma] + ts == [Comma] + ([Comma] + ts);
      ExpandLeadingComma([Comma] + ts);
    } else {
      assert Join(xs) + [Comma, Comma] + ts == Join(xs) + [Comma] + ([Comma] + ts);
      ExpandJoinSplit(xs, [Comma] + ts);
      ExpandLeadingComma(ts);
    }
  }

  /** A rejected remainder rejects the whole list: an invocation fails as soon
      as one of its arguments fails. With no arguments in front, the comma
      itself is a leading comma and the invocation is rejected as well. */
  lemma RejectAfterArguments(xs: seq<Arg>, b: seq<Token>)
    requires Expand(b) == None
    ensures Expand(Join(xs) + [Comma] + b) == None
  {
    if xs == [] {
      assert Join(xs) + [Comma] + b == [Comma] + b;
      ExpandLeadingComma(b);
    } else {
      ExpandJoinSplit(xs, b);
    }
  }

  /** Only identifiers, `mut` and commas occur in an accepted invocation: a
      token tree of any other kind, anywhere, makes the invocation fail. */
  lemma {:induction false} ExpandAcceptsOnlyArgumentTokens(ts: seq<Token>)
    ensures Expand(ts).Some? ==> forall i :: 0 <= i < |ts| ==> !ts[i].Other?
    decreases |ts|
  {
    if |ts| == 0 || (|ts| == 1 && ts[0] == Comma) {
    } else if ts[0].Ident? {
      if 1 < |ts| {
        ExpandAcceptsOnlyArgumentTokens(ts[2..]);
        assert forall i :: 2 <= i < |ts| ==> ts[i] == ts[2..][i - 2];
      }
    } else if 2 < |ts| {
      ExpandAcceptsOnlyArgumentTokens(ts[3..]);
      assert forall i :: 3 <= i < |ts| ==> ts[i] == ts[3..][i - 3];
    }
  }

  /** A field access `scope.field` is not an argument form of the macro, with
      or without `mut`: an invocation that has one at its start, or anywhere
      after other tokens, is rejected. */
  lemma RejectScopedField(before: seq<Token>, scope: string, field: string, rest: seq<Token>)
    ensures Expand([Ident(scope), Other("."), Ident(field)] + rest) == None
    ensures Expand([Mut, Ident(scope), Other("."), Ident(field)] + rest) == None
    ensures Expand(before + [Ident(scope), Other("."), Ident(field)] + rest) == None
    ensures Expand(before + [Mut, Ident(scope), Other("."), Ident(field)] + rest) == None
  {
    var ts := [Ident(scope), Other("."), Ident(field)] + rest;
    ExpandAcceptsOnlyArgumentTokens(ts);
    assert ts[1].Other?;
    var ms := [Mut, Ident(scope), Other("."), Ident(field)] + rest;
    ExpandAcceptsOnlyArgumentTokens(ms);
    assert ms[2].Other?;
    var bs := before + [Ident(scope), Other("."), Ident(field)] + rest;
    ExpandAcceptsOnlyArgumentTokens(bs);
    assert bs[|before| + 1].Other?;
    var bms := before + [Mut, Ident(scope), Other("."), Ident(field)] + rest;
    ExpandAcceptsOnlyArgumentTokens(bms);
    assert bms[|before| + 2].Other?;
  }

  // ---------------------------------------------------------------------------
  // Small invocations

  /** `clone!()` and `clone!(,)` generate nothing; `clone!(,,)` is rejected. */
  lemma ExpandEmptyList()
    ensures Expand([]) == Some([])
    ensures Expand([Comma]) == Some([])
    ensures Expand([Comma, Comma]) == None
  {
  }

  /** `clone!(x)` generates `let x = x.clone();`. */
  lemma ExpandSingle(x: string)
    ensures Expand([Ident(x)]) == Some([Let(false, x, x)])
  {
  }

  /** `clone!(mut x)` generates `let mut x = x.clone();`. */
  lemma ExpandSingleMut(x: string)
    ensures Expand([Mut, Ident(x)]) == Some([Let(true, x, x)])
  {
  }

  /** `clone!(x, y, z)` generates the clones of `x`, `y` and `z` in that order. */
  lemma ExpandThree(x: string, y: string, z: string)
    ensures Expand([Ident(x), Comma, Ident(y), Comma, Ident(z)])
      == Some([Let(false, x, x), Let(false, y, y), Let(false, z, z)])
  {
    var ts := [Ident(x), Comma, Ident(y), Comma, Ident(z)];
    assert ts[2..] == [Ident(y), Comma, Ident(z)];
    assert ts[2..][2..] == [Ident(z)];
    assert Expand(ts[2..][2..]) == Some([Let(false, z, z)]);
    assert Expand(ts[2..]) == Some([Let(false, y, y)] + [Let(false, z, z)]);
    assert Expand(ts) == Some([Let(false, x, x)] + ([Let(false, y, y)] + [Let(false, z, z)]));
    assert [Let(false, x, x)] + ([Let(false, y, y)] + [Let(false, z, z)])
      == [Let(false, x, x), Let(false, y, y), Let(false, z, z)];
  }

  /** Because the tail after a comma is expanded as a whole list, `clone!(x,,)`
      is accepted with one statement while `clone!(x,,,)` is rejected. */
  lemma ExpandTrailingCommas(x: string)
    ensures Expand([Ident(x), Comma, Comma]) == Some([Let(false, x, x)])
    ensures Expand([Ident(x), Comma, Comma, Comma]) == None
  {
    assert [Ident(x), Comma, Comma][2..] == [Comma];
    assert [Ident(x), Comma, Comma, Comma][2..] == [Comma, Comma];
    assert [Let(false, x, x)] + [] == [Let(false, x, x)];
  }
}
