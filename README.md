# clonelet `clone!` in Dafny

The clonelet crate is a single declarative macro, `clone!`. It turns a
comma-separated list of arguments into one `let` statement per argument.
Each statement clones a variable into a new binding with the same name, so
the clone shadows the original:

- `x` becomes `let x = x.clone();`
- `mut x` becomes `let mut x = x.clone();`
- `clone!()` and `clone!(,)` expand to nothing.

The macro has three arms (src/lib.rs:33, 34-37 and 38-41), tried in order.
After an argument and its comma, the rest of the invocation is passed back to
`clone!` as a whole and matched against the three arms again.

This project models the invocation as a sequence of token trees (`Token`:
an identifier, the keyword `mut`, a comma, or any other token tree). The
generated code is a sequence of statements `Let(mutable, binding, source)`.
`CloneMacro.Expand` follows the three arms in order. It returns `None` where
no arm matches, which in Rust is a compile error at the invocation.

`ArgumentList` describes the accepted argument lists as a grammar rather
than as the three arms. A list is a sequence of `Arg`s joined by commas
(`Join`) and followed by `c` trailing commas (`Layout`), and `Statements`
gives the statements it produces. The crate's documentation does not say
which trailing commas are allowed. `Admissible` records what the arms at
src/lib.rs:33-36 do with them. `CloneMacroProofs` connects the two
definitions in both directions:

- every well-formed list with an admissible number of trailing commas
  expands to one statement per argument, in order, with the argument's name
  and mutability;
- every accepted invocation is such a list.

Admissible means no trailing comma, one trailing comma, or, after a
non-empty list, two. The second comma is then the lone comma of the first
arm. So `clone!(a,,)` is accepted and `clone!(a,,,)` and `clone!(,,)` are
not.

Files: `clone_macro.dfy` (module `CloneMacro`), `argument_list.dfy`
(module `ArgumentList`), `clone_macro_proofs.dfy` (module `CloneMacroProofs`).

## Model

| member | source | states |
|---|---|---|
| `CloneMacro.Expand` | src/lib.rs:32-42 | an accepted invocation generates only statements whose new binding has the same name as the variable it clones, so each clone shadows its original |
| `CloneMacroProofs.ExpandArgument` | src/lib.rs:34-41 | an argument (`x` or `mut x`) followed by nothing yields exactly its own statement; followed by `, tail` it yields its statement first, then the expansion of the whole `tail`, and it fails if the tail fails; followed by anything else it is rejected |
| `CloneMacroProofs.ExpandLeadingComma` | src/lib.rs:33-41 | an invocation that starts with a comma is accepted only when that comma is the whole invocation, and then generates nothing |
| `CloneMacroProofs.ExpandLayout` | src/lib.rs:33-41 | a list of n arguments with an admissible number of trailing commas expands to exactly n statements; the i-th is mutable exactly when the i-th argument is written `mut`, and binds and clones the i-th argument's name |
| `CloneMacroProofs.ExpandRejectsExtraCommas` | src/lib.rs:33-41 | two trailing commas after an empty list, and three or more after any list, are rejected |
| `CloneMacroProofs.ExpandLayoutSucceedsIff` | src/lib.rs:33-41 | a written argument list is accepted if and only if its number of trailing commas is admissible |
| `CloneMacroProofs.ExpandOnlyLayouts` | src/lib.rs:33-41 | every accepted invocation is exactly the arguments its statements came from (same order, names and `mut` markers), joined by commas and followed by an admissible number of trailing commas |
| `CloneMacroProofs.ExpandSucceedsIff` | src/lib.rs:33-41 | an invocation is accepted if and only if it is a comma-separated argument list followed by an admissible number of trailing commas |
| `CloneMacroProofs.ExpandKeepsNames` | src/lib.rs:34-41 | the names bound by the generated statements are the identifiers of the invocation, in the order written, so there is one statement per identifier |
| `CloneMacroProofs.ExpandJoinSplit` | src/lib.rs:34-41 | a non-empty argument list, a comma, then any tokens: the result is the list's statements followed by the expansion of the remaining tokens, and it fails exactly when the remainder fails |
| `CloneMacroProofs.ExpandSplit` | src/lib.rs:34-41 | for any non-empty accepted invocation `a` that does not end in a comma, `a , b` expands to the expansion of `a` followed by that of `b`, and it succeeds if and only if `b` does |
| `CloneMacroProofs.RejectLeadingComma` | src/lib.rs:33-41 | a comma followed by anything is rejected |
| `CloneMacroProofs.RejectMissingComma` | src/lib.rs:34-41 | an invocation that starts with two arguments with no comma between them is rejected, whatever follows; `RejectAfterArguments` carries this past any argument list in front |
| `CloneMacroProofs.RejectDanglingMut` | src/lib.rs:38-41 | `mut` followed by nothing, or by a token that is not an identifier, is rejected |
| `CloneMacroProofs.RejectOtherToken` | src/lib.rs:33-41 | a token tree that is not an identifier, `mut` or a comma cannot start an argument, so the invocation is rejected |
| `CloneMacroProofs.RejectDoubleComma` | src/lib.rs:33-41 | two commas followed by more tokens are rejected, both at the start of a list and after any number of arguments (`a,,b`) |
| `CloneMacroProofs.RejectAfterArguments` | src/lib.rs:36-40 | if the remainder after an argument list and a comma is rejected, the whole invocation is rejected; with no arguments in front the comma is a leading comma, which is rejected too |
| `CloneMacroProofs.ExpandAcceptsOnlyArgumentTokens` | src/lib.rs:33-41 | an accepted invocation holds only identifiers, `mut` and commas: a token tree of any other kind anywhere in it makes it fail |
| `CloneMacroProofs.RejectScopedField` | src/lib.rs:34-41 | `scope.field` and `mut scope.field` are not argument forms: an invocation containing either, at its start or after any tokens, is rejected |
| `CloneMacroProofs.ExpandEmptyList` | src/lib.rs:33 | `clone!()` and `clone!(,)` generate nothing, and `clone!(,,)` is rejected |
| `CloneMacroProofs.ExpandSingle` | src/lib.rs:34-35 | `clone!(x)` generates exactly `let x = x.clone();` |
| `CloneMacroProofs.ExpandSingleMut` | src/lib.rs:38-39 | `clone!(mut x)` generates exactly `let mut x = x.clone();` |
| `CloneMacroProofs.ExpandThree` | src/lib.rs:3-10 | `clone!(x, y, z)` generates the clones of `x`, `y` and `z`, in that order |
| `CloneMacroProofs.ExpandTrailingCommas` | src/lib.rs:33-36 | `clone!(x,,)` generates one statement, because the tail `,` matches the first arm; `clone!(x,,,)` is rejected |

## Left out

- What `.clone()` does at run time: the `Clone` trait, ownership, drop order and the independence of the copy. This is Rust library and language semantics, not code in the crate. A statement records only which name is cloned into which binding.
- The general `macro_rules` matching engine, hygiene and the `$crate::clone!` path used for the recursive call (src/lib.rs:36, 40). The three arms are modelled directly as one recursive function.
- Rust's `ident` fragment also matches keywords, so a lone `mut` could be taken as an identifier by the arm at src/lib.rs:34. The model treats `mut` as its own token, never as an identifier.
- Expansion depth: each argument is one nested `clone!` invocation (src/lib.rs:36, 40), so rustc's macro recursion limit (128 by default, raised with `#![recursion_limit]` in the invoking crate) bounds the number of arguments. `Expand` has no such bound, so `ExpandLayout` and `ExpandSucceedsIff` also hold for lists longer than the compiler accepts.
- Errors the compiler reports in the generated code are not modelled, for example an undefined name, a type that does not implement `Clone`, or mutating an immutable clone.
- `scope.field` arguments: `scope.field` and `mut scope.field` are not argument forms of src/lib.rs:32-42, which has no arm for them. `RejectScopedField` states that they are rejected.
- The closure-capture usage in the documentation (src/lib.rs:13-22) shows how the macro is used, not what it does.
- A bracketed group inside an invocation is one token tree, so it is a single `Other` token. Its contents are not modelled.
