# Verified model of the Assura contract compiler

Assura compiles contracts (requires, ensures and invariant clauses, services with states)
to Rust: each clause becomes a Rust expression inside a generated `check` function, and
bounds in the requires clauses become value strategies for property tests. This project
models that generator and proves what the generated code does, together with the two
string algorithms next to it: the spelling suggester and the scanner for Rust signatures.

`dafny verify dfyconfig.toml` checks everything.

## How the model is built

- `ast.dfy`, `numeric.dfy`, `rust.dfy`, `rust_semantics.dfy` are the two languages:
  contract expressions; Rust's integer types with wrapping and truncating division; the
  emitted tokens with a parser that follows Rust's precedence; and Rust's typing and
  evaluation with overflow checks on, where a failed check panics.
- `emitter.dfy` is what the expression folder writes. `Text` is the token sequence,
  `Intended` the expression it is meant to be. `folder.dfy` is the folder itself, an
  object with three sets of names (Float, Int, Nat) that change while a `let` is folded.
- `sources.dfy` types contract expressions from the declared types alone (`SourceType`),
  and says which of them the compiler supports (`Supported`). `meanings.dfy` begins with
  what they mean (`Meaning`). Neither mentions the folder's sets, its kinds or its text.
- `reading.dfy` shows what Rust's grammar makes of the text. `widths.dfy`, `kinds.dfy`,
  `branches.dfy` and `soundness.dfy` are type soundness: `Width` is the type of the
  emitted code for any sets, and on supported expressions it is the source type.
  `meanings.dfy`, `wrapping.dfy` and `exactness.dfy` are meaning preservation.
  `compiler.dfy` puts them together, from the folder's text to the value Rust computes.
- `snapshots.dfy`, `clones.dfy`, `monitoring.dfy`, `checker.dfy`, `prologues.dfy` and
  `messages.dfy` are the generated `check` function: the pre-state snapshots, the clones they
  are taken with, the test that leaves an assertion as a comment, the statement list and its
  execution, what the emitted snapshot statements bind, and the text of the failure message.
- `forms.dfy` is the folder beyond integer typing: floats, literals beyond `i128`, the order
  of folding, and the names of snapshots.
- `ranges.dfy`, `test_inputs.dfy` and `idents.dfy` are the generated test inputs, against
  ranges and against the meaning of the clauses, and the synthesised parameters;
  `negative_literals.dfy` is one operand form of its own; `typestate.dfy` and `handles.dfy`
  are the services with states and the programs that use them; `distance.dfy` is the
  suggester; `parameters.dfy` and `signatures.dfy` are the signature scanner.

The expression theorems hold of every expression with a source type that shadows no name
and is `Supported`: in each sum at 64 bits both kinds are visible and a literal on the
left is a plain one, and normalising the branches of each `if` gives its type. Both
conditions are computed from the expression and the declared types, and both are exact
(`Soundness.SumCompilesIff`, `Soundness.IfCompilesIff`). `hidden` are names whose
declared kind the folder was not told: none, for declared parameters.

## Where the code differs from what it is for

Each of these is a theorem below; the model follows the code.

1. The test for placeholder field accesses reads `a.wrapping_add` as a field access
   (`expr.rs:1007-1024`), so an assertion in which a variable receives a wrapping
   operation becomes a comment (`hir.rs:590`). `ensures { result == a + b }` over Int is
   never checked: `Monitoring.UncheckedIff`, `Checker.WrongSumIsReturned`. Its second half
   (`expr.rs:1026-1040`) looks at the word the text starts with, so an `if` in which a
   length of the result is taken becomes a comment, too:
   `Monitoring.GuardedLengthIsUnchecked`.
2. The textual test for an `i128` branch is right for arithmetic branches but takes a
   comparison, cast or nested `if` inside a branch for an `i128` one, and the emitted
   `if`, over integers or Booleans, does not type-check: `Soundness.EmittedIfType`,
   `Compiler.SameTypeBranchesIff`, `Compiler.NestedIfIsRejected`,
   `Compiler.BooleanIfIsRejected`.
3. `docs/WHAT-WE-PROVE.md:59-68` says that same-kind sums wrap. They do exactly when the
   kinds of both operands are visible: a `let` hides the kind of its own variable from the
   sum around it (`Kinds.KindIsTypeIff`, `Soundness.SumCompilesIff`,
   `Kinds.LetBodyLosesKind`), and the sum is widened. A sum of literals only is widened as
   well and then does not combine with an Int or a Nat (`Wrapping.CompilesIff`); a literal
   choice or a double negation on the left of a sum receives the operation without a type.
4. `old(a.b)` and `old(a_b)` share a snapshot variable, and `old` of a `let` variable is
   snapshotted where that variable is not declared: `Prologues.EmittedSnapshotsIff`,
   `Snapshots.LetBoundOldIsRejected`. `old(a + b * c)` and `old((a + b) * c)` share one, too
   (`Forms.GroupingCollides`, `Forms.PartsCollide`). The snapshot of a length is written
   `s.len() as u64.clone()`, which is no Rust (`Prologues.OldLengthIsRejected`); that of
   `old(old(x))` reads itself (`Prologues.NestedOldIsRejected`); that of a sum of Ints is an
   `i128` (`Prologues.OldSumIsRejected`).
5. Of a service method's clauses the generator reads only the first guard
   `self.state == S`, in this order, and the last such target. A method with an undeclared guard, or a
   guard in another form, can be called in every state; a second guard or target of
   another state is dropped: `Typestate.AgreesAtIff`, `Typestate.BisimulationIff`. A
   method `new` of the first state clashes with the constructor: `Typestate.NewClashesIff`.
6. `x > 9223372036854775807` saturates and admits that value (`Ranges.ApplyIsExactIff`);
   bounds that no value of the type meets still produce values (`Ranges.StrategyIsExactIff`).
7. The synthesised parameters are the free names exactly when no quantifier ends after the
   last occurrence of a name it binds that is free elsewhere, and no `let` or `match` name
   survives: `Idents.CollectsFreeNamesIff`, `Idents.ErasedIff`,
   `Idents.LaterQuantifierErases`, `Idents.LetNameIsCollected`.
8. A return type whose text contains `where` is cut there (`Signatures.ReturnRoundTripIff`),
   and a signature whose first `(` is never closed makes the scanner slice past the end or
   inside a character (`Signatures.CrashesIff`). A parenthesis in the generics is taken for
   the one that opens the list (`Signatures.ClosureBoundIsRead`).
9. A `let` that shadows a name of its own kind makes the folder forget the outer name
   (`Folder.LetRestoresIff`); `-s.length()` is read as `(-s.len()) as u64`, and a member
   of a length is not Rust (`Reading.TextParses`).
10. A backslash or a carriage return in a condition changes or breaks the message of its
    assertion (`Messages.MessageIsConditionIff`).
11. The lexer reads `-5` as one literal (`lexer.rs:410`), which the folder writes as a
    receiver without parentheses: `-5 - a` over Int computes `a - 5`
    (`NegativeLiterals.DifferenceIsRightIff`).
12. Next to a literal above `i128::MAX` both sides are cast to `u128`, so a negative Int is
    large (`Forms.HugeOrderIsRightIff`). A cast such as `a as U8` keeps the kind Int
    (`Forms.NarrowCastWraps`).

## Model

| member | source | states |
|---|---|---|
| Numeric.WrapAdd | crates/assura-codegen/src/expr.rs:97-104 | wrapping the operands first does not change a wrapped sum, at every machine width |
| Numeric.WrapSub | crates/assura-codegen/src/expr.rs:97-104 | the same for differences |
| Numeric.WrapMul | crates/assura-codegen/src/expr.rs:97-104 | the same for products |
| Numeric.TruncDivSize | crates/assura-codegen/src/expr.rs:611-616 | Rust's quotient is never larger in magnitude than the dividend |
| Numeric.TruncModSize | crates/assura-codegen/src/expr.rs:611-616 | Rust's remainder has the dividend's sign, is no larger than the dividend and smaller than the divisor |
| Numeric.RangesAreTwosComplement | crates/assura-codegen/src/expr.rs:97-104 | each sized type holds exactly the two's-complement range of its bits, the powers of two computed |
| Folder.NumericVars | crates/assura-codegen/src/expr.rs:43-76 | the three sets are exactly the names declared with the float, `i64` and `u64` types, `result` and the output name included |
| Folder.RustCodegenFolder.FoldExpr | crates/assura-codegen/src/expr.rs:456-794 | the text written and the three sets left behind, for any expression and any sets, shadowing included |
| Folder.RustCodegenFolder.FoldBinop | crates/assura-codegen/src/expr.rs:544-624 | the same for a binary operator: implication, `u128`, wrapping with its operand swap, widening, plain |
| Folder.RustCodegenFolder.FoldIf | crates/assura-codegen/src/expr.rs:684-715 | the same for an `if`: branches are folded before the condition and normalised together |
| Folder.RustCodegenFolder.FoldLet | crates/assura-codegen/src/expr.rs:760-794 | the same for a `let`: the name enters its kind's set and is removed again |
| Folder.RustCodegenFolder.FoldWrappingReceiver | crates/assura-codegen/src/expr.rs:432-449 | the same for a receiver: literals get the kind's suffix, open casts get parentheses |
| Folder.FoldIsText | crates/assura-codegen/src/expr.rs:760-794 | without shadowing, folding any expression leaves the three sets exactly as found, and the text is a function of the expression and the sets |
| Folder.LetBodyScope | crates/assura-codegen/src/expr.rs:760-794 | inside a `let` body the sets are the outer ones plus the binder's own entries, and leaving it restores them |
| Folder.FoldNeverAdds | crates/assura-codegen/src/expr.rs:760-794 | with or without shadowing, no pass leaves a name behind that was not there |
| Folder.LetRestoresIff | crates/assura-codegen/src/expr.rs:760-794 | a `let` restores the sets exactly when its name is not already in the set its kind selects |
| Folder.ShadowingForgets | crates/assura-codegen/src/expr.rs:760-794 | otherwise the outer name is lost for everything folded later |
| Forms.FoldingOrder | crates/assura-codegen/src/expr.rs:544-715 | branches are folded before the condition and the left operand before the right one: a `let` that rebinds an Int in one of them makes a sum in a later one widen, and none in an earlier one |
| Forms.FloatIsLeaf | crates/assura-codegen/src/expr.rs:157-183 | the float test holds exactly when a float literal or a float name occurs among the leaves, under `old` and in both parts of a `let` |
| Forms.FloatsStayPlain | crates/assura-codegen/src/expr.rs:544-624 | an operator or an `if` with such a leaf on either side is written as it stands: nothing is wrapped, widened or cast |
| Forms.FloatBinder | crates/assura-codegen/src/expr.rs:760-794 | a `let` variable is a float inside the `let` exactly when its value has such a leaf, or it was one |
| Forms.NumericIsCore | crates/assura-codegen/src/expr.rs:193-223 | an expression looks numeric exactly when what is inside its casts, `old`s, `let` bodies and first branches is no Boolean literal, negation, comparison or connective |
| Forms.KindlessForms | crates/assura-codegen/src/expr.rs:370-410 | truth values, fields, float literals, quotients and remainders have no kind |
| Forms.HugeIsLeaf | crates/assura-codegen/src/expr.rs:141-155 | the `u128` test holds exactly when a literal from 2^127 to 2^128 - 1 occurs |
| Forms.HugeIsCast | crates/assura-codegen/src/expr.rs:544-570 | with such a literal on either side both numeric operands are cast to `u128` |
| Forms.HugeComparisonIs | crates/assura-codegen/src/expr.rs:544-570 | compared with such a literal, a negative Int counts 2^128 more than it is |
| Forms.HugeOrderIsRightIff | crates/assura-codegen/src/expr.rs:544-570 | an order comparison with such a literal, at least 2^63 below `u128::MAX`, is right exactly when the name is not negative |
| Forms.SuffixIsFirstFit | crates/assura-codegen/src/expr.rs:459-481 | a literal carries the suffix of the first of `i32`, `i64`, `i128` and `u128` that holds it, `i32` left out |
| Forms.LiteralSideIsIrrelevant | crates/assura-codegen/src/expr.rs:571-609 | a literal on the left of a wrapping sum or product gives the text it gives on the right |
| Forms.NarrowCastWraps | crates/assura-codegen/src/expr.rs:370-410 | a cast to a narrower type keeps the kind Int, so that a sum with an Int calls `wrapping_add` on the narrow type |
| Forms.SizedTypeNames | crates/assura-codegen/src/types_gen.rs:79-112 | a sized type is emitted under its letter and size; Int, Nat and Float are 64 bits wide |
| Reading.TextReads | crates/assura-codegen/src/expr.rs:429-633 | Rust's grammar reads the text of every readable expression as one known tree, in any context that may follow it |
| Reading.TextParses | crates/assura-codegen/src/expr.rs:495-633 | for every expression: the text parses completely exactly when no member is taken of an open `as` cast and none stands left of a plain `<`, and to the intended tree exactly when, besides, no prefix operator or implication stands in front of one |
| Reading.TextJams | crates/assura-codegen/src/expr.rs:491-506 | the text of any other expression is never read to its end, whatever follows it |
| Reading.ReadIsTree | crates/assura-codegen/src/expr.rs:495-633 | the tree Rust reads is the intended one exactly under that condition |
| Reading.ReceiverIsClosed | crates/assura-codegen/src/expr.rs:109-118 | every `wrapping_*` receiver is a postfix-level expression, never an open cast |
| NegativeLiterals.DifferenceParses | crates/assura-codegen/src/expr.rs:432-449 | Rust reads the text of `-5 - e`, whose literal includes the sign, as the negation of a difference |
| NegativeLiterals.DifferenceIsRightIff | crates/assura-codegen/src/expr.rs:432-449 | over Int that is the wanted value exactly when `e` is 0, or `i64::MIN` and the literal is not zero |
| Soundness.SourceTypeIsEmitted | crates/assura-codegen/src/expr.rs:370-715 | type soundness: a supported expression compiles, and the emitted Rust has the type its declared types give it; so no `wrapping_*` is called on an `i128` or a bare literal and no operator joins `i64` with `u64` |
| Soundness.SumCompilesIff | crates/assura-codegen/src/expr.rs:370-624 | a sum of Ints or Nats keeps its type exactly when the kinds of both operands are visible and a literal on the left is a plain one |
| Soundness.IfCompilesIff | crates/assura-codegen/src/expr.rs:684-715 | an `if` keeps its source type exactly when normalising its branches gives that type |
| Soundness.EmittedIfType | crates/assura-codegen/src/expr.rs:684-715 | the type of the emitted `if` for any typed branches, Boolean and byte-string ones included: a branch without a trace of `i128` is widened if both look numeric and the other has one, and a byte string cannot be |
| Soundness.ArithmeticIfAgrees | crates/assura-codegen/src/expr.rs:684-715 | branches of names, literals, negation and arithmetic are always normalised right |
| Soundness.OrdinaryIsSupported | crates/assura-codegen/src/expr.rs:370-715 | every typed expression without `let`, with arithmetic or evidently Boolean branches and no literal choice on the left of a sum, is supported |
| Widths.WidthForm | crates/assura-codegen/src/expr.rs:544-616 | which of wrapping, widening, implication and plain text an operator gets, decided by the types of its emitted operands and the kinds known |
| Widths.WidthShape | crates/assura-codegen/src/expr.rs:193-223 | code of an integer type passes the numeric test, and its text is read back as intended |
| Widths.NoFloats | crates/assura-codegen/src/expr.rs:141-183 | inside the fragment neither the float test nor the `u128` test fires |
| Kinds.KindIs | crates/assura-codegen/src/expr.rs:370-410 | the kind the folder computes is that of the source type when it is visible, and none when it is not: Int means `i64`, Nat means `u64`, Lit an untyped literal |
| Kinds.KindIsTypeIff | crates/assura-codegen/src/expr.rs:370-410 | for an Int or a Nat, the kind is that of the type exactly when no operand that decides it is hidden or bound by a `let` inside the expression |
| Kinds.KindImpliesType | crates/assura-codegen/src/expr.rs:370-410 | for any sets that classify names by their types, supported or not: kind Int means the emitted code is `i64`, kind Nat `u64`, kind Lit an untyped literal |
| Kinds.KindIsStable | crates/assura-codegen/src/expr.rs:370-410 | learning one more name never changes a kind already known |
| Kinds.LetBodyLosesKind | crates/assura-codegen/src/expr.rs:405 | `(let y = a in y) + a` over Int is widened although both operands are `i64` |
| Meanings.MeaningIsTyped | docs/WHAT-WE-PROVE.md:59-68 | the meaning, given by the declared types alone, is never stuck: it is a value of the source type, or a panic |
| Meanings.EmittedComputesMeaning | crates/assura-codegen/src/expr.rs:432-715 | running the emitted expression gives the meaning its source has under its declared types, wrapping and panics included |
| Wrapping.CompilesIff | crates/assura-codegen/src/expr.rs:432-475 | a `+ - *` tree over one kind compiles at that kind's type exactly when its literals fit |
| Wrapping.ComputesModulo | crates/assura-codegen/src/expr.rs:574-609 | it then evaluates to the unbounded-integer value of the tree reduced modulo 2^64 into the kind's range, whatever the nesting, swapping and suffixes |
| Branches.InnerTest | crates/assura-codegen/src/expr.rs:189-191 | what the textual `i128` test on the emitted text says about the source expression |
| Branches.InnerTestIsRight | crates/assura-codegen/src/expr.rs:189-191 | on arithmetic branches it holds exactly when the emitted type is `i128` |
| Branches.ArithmeticBranchesAgree | crates/assura-codegen/src/expr.rs:684-715 | the exact type of an `if` with arithmetic branches: `i128` if either branch is, else the type the branches share, else none |
| Compiler.CompiledTextIsFaithful | crates/assura-codegen/src/expr.rs:456-794 | end to end: the text the mutable folder writes parses, has the source type and evaluates to the source's meaning, and the folder's sets are restored |
| Compiler.SameTypeBranchesIff | crates/assura-codegen/src/expr.rs:684-715 | with branches of one type, a sized integer, Boolean or byte string, the emitted `if` is rejected exactly when both look numeric and only one has a trace of `i128` |
| Compiler.NestedIfIsRejected | crates/assura-codegen/src/expr.rs:684-715 | a nested minimum in one branch is rejected by rustc |
| Compiler.BooleanIfIsRejected | crates/assura-codegen/src/expr.rs:684-715 | so is a nested choice between Booleans |
| Exactness.SizeBounds | crates/assura-codegen/src/expr.rs:571-616 | a magnitude bound read off types and literals bounds the exact value |
| Exactness.WideningIsExact | crates/assura-codegen/src/expr.rs:571-616 | below 2^127 the emitted `i128` code computes the exact integer value and cannot overflow |
| Exactness.OneStepFits | crates/assura-codegen/src/expr.rs:571-616 | one `+ - *` of an Int with a Nat, and any `/` or `%` of 64-bit operands, is always below the bound |
| Exactness.ComparisonIsExact | crates/assura-codegen/src/expr.rs:571-616 | an emitted comparison orders the exact values of its sides |
| Snapshots.OldCollector.Walk | crates/assura-codegen/src/expr.rs:1134-1218 | the list after a walk, for any list before it |
| Snapshots.CollectExtends | crates/assura-codegen/src/expr.rs:1134-1143 | a walk only appends, and never a second snapshot of one name |
| Snapshots.CollectCovers | crates/assura-codegen/src/expr.rs:1134-1218 | every `old` of the expression has a snapshot of its name |
| Snapshots.TextReadsOldNames | crates/assura-codegen/src/expr.rs:635-642 | the emitted text mentions a snapshot variable exactly when some `old` has its name |
| Snapshots.SnapshotsCoverText | crates/assura-codegen/src/contract.rs:303-312 | every snapshot variable in a clause is bound by exactly one collected pair |
| Snapshots.SnapshotsAreFaithfulIff | crates/assura-codegen/src/expr.rs:1069-1124 | over all ensures clauses, the snapshots compile and each `old` operand reads its own entry value in every entry state exactly when every operand starts at a parameter and no two operands share a name |
| Snapshots.UnderscoreFreeSnapshots | crates/assura-codegen/src/expr.rs:1069-1073 | operands that start at parameters and contain no underscore always do |
| Snapshots.LetBoundOldIsRejected | crates/assura-codegen/src/expr.rs:1134-1143 | the snapshot of a `let` variable does not compile |
| Snapshots.FieldNameCollides | crates/assura-codegen/src/expr.rs:1069-1073 | `old(a.b)` and `old(a_b)` in one clause do not both read their own value |
| Snapshots.OuterComesFirst | crates/assura-codegen/src/expr.rs:1136-1144 | the snapshot of an `old` stands before those of the `old`s inside its operand, unless its name is taken |
| Forms.OperatorsAreTold | crates/assura-codegen/src/expr.rs:1083-1090 | over the same operands different operators give snapshots of different names |
| Forms.PrefixesAreTold | crates/assura-codegen/src/expr.rs:1091-1097 | so do the prefixes, and none gives the name of its operand |
| Forms.LiteralsAreTold | crates/assura-codegen/src/expr.rs:1078-1082 | so do different integer, float and Boolean literals |
| Forms.LengthsAreTold | crates/assura-codegen/src/expr.rs:1074-1076 | a length is told from its receiver |
| Forms.GroupingCollides | crates/assura-codegen/src/expr.rs:1083-1099 | grouping and casts leave no trace: `old(a + b * c)` and `old((a + b) * c)` share a snapshot |
| Forms.PartsCollide | crates/assura-codegen/src/expr.rs:1103-1104 | nor do the branches of an `if`, or the value and body of a `let` |
| Clones.CloneReadsIff | crates/assura-codegen/src/contract.rs:303-312 | the right-hand side of a snapshot is read by Rust as a clone of the operand's own tree exactly when the operand's text is Rust and is no length |
| Clones.PathIsCloned | crates/assura-codegen/src/contract.rs:303-312 | the snapshot of every name or field path clones that path with all its fields |
| Prologues.LetsAreBindings | crates/assura-codegen/src/contract.rs:303-312 | the emitted statements, each read by Rust and run on the entry state, bind exactly what the collected snapshots ask for |
| Prologues.EmittedSnapshotsIff | crates/assura-codegen/src/contract.rs:303-312 | the emitted snapshot statements compile and each `old` of a path reads its own entry value from them, in every entry state, exactly when every operand starts at a parameter and no two operands share a name |
| Prologues.SnapshotMeansOperand | crates/assura-codegen/src/contract.rs:303-312 | one statement for each snapshot, under its name; a supported operand that is no length is snapshotted at its type and its meaning on entry |
| Prologues.OldLengthIsRejected | crates/assura-codegen/src/contract.rs:307-309 | `old(s.length())` makes the whole `check` function no Rust |
| Prologues.NestedOldIsRejected | crates/assura-codegen/src/expr.rs:1136-1144 | so does `old(old(x))`: its snapshot is taken of its own variable |
| Prologues.OldSumIsRejected | crates/assura-codegen/src/expr.rs:1136-1138 | `old(a + b)` over Int is snapshotted as an `i128`, but a sum of it with an Int is emitted for `i64` and rejected |
| Monitoring.FlaggedIffNamedReceiver | crates/assura-codegen/src/expr.rs:966-1042 | the field-access test fires on the text of an expression without fields exactly when a name receives a wrapping operation in it |
| Monitoring.UncheckedIff | crates/assura-codegen/src/hir.rs:587-591 | a Boolean clause without fields is left as a comment exactly when a name receives a wrapping operation in it, or when it is an `if` in which a member of the result is taken |
| Monitoring.GuardedLengthIsUnchecked | crates/assura-codegen/src/expr.rs:1026-1040 | `if p then result.length() > 0 else true` is left as a comment though nothing wraps |
| Monitoring.DeepFieldAccessIs | crates/assura-codegen/src/expr.rs:966-1042 | on emitted text the two halves of the test come down to a flagged word, or a member of the result in a text that starts with a word |
| Monitoring.PathIsUncheckedIff | crates/assura-codegen/src/expr.rs:966-1025 | a clause that is a field path is left as a comment exactly when some field is not named like a known method |
| Monitoring.VariablesAreNamed | crates/assura-codegen/src/expr.rs:1007-1016 | every variable and every snapshot counts as a name for the test |
| Checker.ConvertClauses | crates/assura-codegen/src/contract.rs:192-215 | each requires, ensures and invariant clause is folded from the declared sets, in order |
| Checker.BodyAt | crates/assura-codegen/src/contract.rs:192-215 | the clauses of one kind are all clauses of that kind, each at the place it has among them |
| Checker.SnapshotStatements | crates/assura-codegen/src/contract.rs:303-312 | one `let` for each snapshot of each ensures clause |
| Checker.GenerateCheck | crates/assura-codegen/src/contract.rs:300-371 | the whole statement list of `check` |
| Checker.CallStates | crates/assura-codegen/src/contract.rs:303-351 | on entry and exit parameters hold their entry values, each snapshot its parameter's entry value, and `result` and its alias the result |
| Checker.CheckRunsContract | crates/assura-codegen/src/contract.rs:300-371 | `check` returns the body's result when every clause passes in its state; otherwise it reports the first clause that does not, of the requires clauses on entry, then the ensures clauses, then the invariants on exit |
| Checker.CheckIsFaithful | crates/assura-codegen/src/hir.rs:587-628 | if no assertion is left as a comment, `check` returns exactly when every requires holds on entry and every ensures and invariant on exit |
| Checker.WrongSumIsReturned | crates/assura-codegen/src/hir.rs:587-591 | a body that returns 7 for 1 + 1 passes `ensures { result == a + b }` |
| Messages.EscapeMessage | crates/assura-codegen/src/hir.rs:609-627 | the chained replacements escape character by character, after joining lines |
| Messages.FlattenIs | crates/assura-codegen/src/hir.rs:609-614 | a line feed becomes one space, and every other character stays in its place |
| Messages.MessageIsConditionIff | crates/assura-codegen/src/hir.rs:609-627 | a failing assertion reports its own condition exactly when that contains no backslash and no carriage return |
| Ranges.BoundIsExtractedIff | crates/assura-codegen/src/contract.rs:574-606 | a clause becomes a bound exactly when it is `>`, `>=`, `<` or `<=` between a name and a literal below 2^63, or `!= 0`; the bound is of that name and holds of exactly the values the comparison holds of |
| Ranges.ParamRange.Apply | crates/assura-codegen/src/contract.rs:617-637 | how one bound narrows the range |
| Ranges.ApplyIsExactIff | crates/assura-codegen/src/contract.rs:617-637 | applying a bound keeps exactly the `i64` values that satisfy it, unless it saturates at the end of the range |
| Ranges.MergeIgnoresOrder | crates/assura-codegen/src/contract.rs:753-762 | the merged range depends only on which bounds are applied, not on their order |
| Ranges.StrategyIsExact | crates/assura-codegen/src/contract.rs:643-660 | for bounds some value of the type meets, the strategy produces exactly the values of the type that meet them; the values of a type are the two's-complement range of its sign and size (of `i64`, for a type that is no integer type) |
| Ranges.StrategyIsExactIff | crates/assura-codegen/src/contract.rs:643-660 | it is exact only then, or when it is a clamped `0..=0` with zero filtered out |
| Ranges.DomainIsMachineRange | crates/assura-codegen/src/contract.rs:533-548 | the domain of every integer type name is the two's-complement range of the sign and size it spells |
| Ranges.UnmetBoundsProduce | crates/assura-codegen/src/contract.rs:643-660 | bounds that no value of the type meets: any value is produced if they exclude each other inside the type, else only the end of the type next to them |
| Ranges.SplitRequires | crates/assura-codegen/src/contract.rs:753-762 | each clause goes to its parameter's range or to the remaining assumptions |
| Ranges.SplitAccepts | crates/assura-codegen/src/contract.rs:574-665 | unless a bound saturates, ranges and assumptions together accept a tuple exactly when it meets every requires clause, whatever decides the clauses that are no simple bounds |
| Ranges.InputsMatchRequires | crates/assura-codegen/src/contract.rs:753-796 | with bounds on declared inputs, satisfiable in their types and none saturating, a tuple is produced and let through exactly when it lies in those types and meets every requires clause in that sense |
| TestInputs.BoundIsEmitted | crates/assura-codegen/src/contract.rs:574-606 | the code emitted for a simple bound, with any literal it can hold, decides the bound that is extracted from it |
| TestInputs.InputsMatchTexts | crates/assura-codegen/src/contract.rs:753-796 | for Int and Nat parameters: a tuple reaches `check` exactly when the code emitted for every requires clause is true of it |
| TestInputs.InputsMatchMeaning | crates/assura-codegen/src/contract.rs:753-796 | for supported clauses: exactly when every requires clause means true |
| Idents.FreeIdents.Collect | crates/assura-codegen/src/contract.rs:29-116 | the accumulated set after one walk |
| Idents.WalkBounds | crates/assura-codegen/src/contract.rs:29-116 | a walk adds only free names and `let` or `match` names, and loses only names that some quantifier binds |
| Idents.CollectsFreeNamesIff | crates/assura-codegen/src/contract.rs:235-246 | the walk over all clauses yields exactly the free names exactly when, for every name that occurs, the walk meets it last at an occurrence rather than at the end of its quantifier if and only if it is free |
| Idents.ErasedIff | crates/assura-codegen/src/contract.rs:235-246 | without `let` and `match`: exactly when every free name is met last at an occurrence |
| Idents.CollectsFreeNames | crates/assura-codegen/src/contract.rs:235-246 | in particular when no name is both free and bound |
| Idents.LetNameIsCollected | crates/assura-codegen/src/contract.rs:80-83 | a `let` variable becomes a parameter |
| Idents.LaterQuantifierErases | crates/assura-codegen/src/contract.rs:54-63 | a later quantifier removes a free name, an earlier one does not |
| Idents.Sort | crates/assura-codegen/src/contract.rs:246-247 | the names in strictly ascending order, none lost or added |
| Idents.SynthesizeInputs | crates/assura-codegen/src/contract.rs:235-250 | one `i64` parameter for each collected name, in sorted order |
| Idents.SortedIsDistinct | crates/assura-codegen/src/contract.rs:246-250 | no parameter appears twice |
| Idents.BeforeIff | crates/assura-codegen/src/contract.rs:246-247 | the order is that of the first difference, a proper prefix first |
| Typestate.BuildMethod | crates/assura-codegen/src/service.rs:229-327 | a method takes the service itself exactly when some ensures clause names a state, and returns it in the last one named; otherwise an operation borrows it mutably and a query does not |
| Typestate.ReceiverIs | crates/assura-codegen/src/service.rs:275-320 | the same of the method that all theorems below speak of |
| Typestate.ComparisonIff | crates/assura-codegen/src/service.rs:13-27 | a clause names a state exactly when it is `self.state == S` in this order |
| Typestate.StatesAreFirst | crates/assura-codegen/src/service.rs:390-398 | the states are those of the first `states` item |
| Typestate.GuardIsFirst | crates/assura-codegen/src/service.rs:401-409 | the guard is that of the first requires clause that names a state |
| Typestate.GroupMethods | crates/assura-codegen/src/service.rs:454-511 | every method is in exactly its guard's group, or in the generic group if the guard is no declared state |
| Typestate.GenerateTypestate | crates/assura-codegen/src/service.rs:413-600 | the impl blocks, in declaration order |
| Typestate.BlocksInOrder | crates/assura-codegen/src/service.rs:513-600 | the blocks are in the order in which the states are declared, the generic one last, and only the constructor's may be without methods |
| Typestate.MembersInOrder | crates/assura-codegen/src/service.rs:460-511 | inside a block the methods are in the order of their declarations |
| Typestate.NewIsInitial | crates/assura-codegen/src/service.rs:513-536 | `new` exists for the first declared state and for no other |
| Typestate.NewClashesIff | crates/assura-codegen/src/service.rs:524-579 | a type gets two definitions of `new` exactly when a method of that name lives in the first state or in the generic block |
| Typestate.ScopeIs | crates/assura-codegen/src/service.rs:518-600 | which methods are in scope on a service in a given state |
| Typestate.AgreesAtIff | crates/assura-codegen/src/service.rs:229-600 | in a state, the calls that type-check are the steps of the declared machine exactly when every method in scope may be called there and leads to the one state it returns; the machine reads every requires and ensures clause, in any Boolean form |
| Typestate.StepsAgreeIff | crates/assura-codegen/src/service.rs:275-285 | if clauses speak of the state in the generator's form only: calls and steps agree in all states exactly when each method's guards name one declared state and each method's targets do |
| Typestate.RunsAgree | crates/assura-codegen/src/service.rs:229-600 | where calls and steps agree in every reachable state, a call sequence type-checks exactly when it is a run of the machine, and both end in the same state |
| Typestate.FromNewIff | crates/assura-codegen/src/service.rs:413-600 | from a service in some state, as from `new()`, the interface admits exactly the runs of the machine exactly when calls and steps agree in every state the machine can reach |
| Typestate.BisimulationIff | crates/assura-codegen/src/service.rs:413-600 | from every declared state the interface admits exactly the machine's runs exactly when each method's guards name one declared state and each method's targets do |
| Typestate.UndeclaredGuardIsIgnored | crates/assura-codegen/src/service.rs:479-492 | a method with an undeclared guard can be called first although the machine has no such step |
| Typestate.SecondGuardIsIgnored | crates/assura-codegen/src/service.rs:401-411 | of two guards that name different states the second is dropped, and the method can be called in the first |
| Typestate.DisjunctiveGuardIsIgnored | crates/assura-codegen/src/service.rs:13-27 | a guard that is a choice of states is dropped, and the method can be called in every state |
| Typestate.ReversedGuardIsIgnored | crates/assura-codegen/src/service.rs:13-27 | a guard written `S == self.state` is dropped, too |
| Typestate.CallsAreDeterministic | crates/assura-codegen/src/service.rs:413-600 | with distinct method names a call sequence determines the final state of the service |
| Typestate.RunIsDeterministic | crates/assura-codegen/src/service.rs:275-285 | and of the machine, if clauses speak of the state in the generator's form only |
| Handles.CallKeepsOne | crates/assura-codegen/src/service.rs:300-320 | a call through the one live handle leaves one live handle in the state of its type: a new one after a transition, else the same one |
| Handles.HandlesFollowTypes | crates/assura-codegen/src/service.rs:300-320 | programs that pass services around as handles make exactly the call sequences that type-check, and never have two services in use |
| Handles.TransitionRetires | crates/assura-codegen/src/service.rs:300-308 | no program that type-checks uses a handle again after a transition through it, and after any other call the next one goes through the same handle |
| Distance.EditDistance | crates/assura-diagnostics/src/suggest.rs:4-24 | the table loop computes the Levenshtein recurrence |
| Distance.DistanceIsShortestScript | crates/assura-diagnostics/src/suggest.rs:4-24 | the distance is at most n exactly when some script of at most n insertions, deletions and substitutions turns one string into the other |
| Distance.NoShorterScript | crates/assura-diagnostics/src/suggest.rs:4-24 | no script is shorter than the distance |
| Distance.ShortestScript | crates/assura-diagnostics/src/suggest.rs:4-24 | a script of exactly that length exists |
| Distance.Symmetric | crates/assura-diagnostics/src/suggest.rs:4-24 | the distance is symmetric |
| Distance.ZeroIffEqual | crates/assura-diagnostics/src/suggest.rs:4-24 | it is zero exactly on equal strings |
| Distance.Triangle | crates/assura-diagnostics/src/suggest.rs:4-24 | it satisfies the triangle inequality |
| Distance.Bounds | crates/assura-diagnostics/src/suggest.rs:4-24 | it lies between the length difference and the longer length |
| Distance.FarZeroIff | crates/assura-diagnostics/src/suggest.rs:29-41 | two strings are at distance 0 for the suggester exactly when they agree up to the case of ASCII letters |
| Distance.FarIgnoresCase | crates/assura-diagnostics/src/suggest.rs:30-39 | changing the case of letters changes no distance |
| Distance.AnswerIgnoresCase | crates/assura-diagnostics/src/suggest.rs:29-51 | nor which candidate is answered |
| Distance.EarliestIsUnique | crates/assura-diagnostics/src/suggest.rs:36-50 | the earliest candidate at the least distance is one only |
| Distance.CloseEnoughMeans | crates/assura-diagnostics/src/suggest.rs:32-48 | close enough is: equal up to case; or one edit away, two from length 3 on, three from length 6 on, and fewer than the input is long |
| Distance.DidYouMean | crates/assura-diagnostics/src/suggest.rs:29-51 | an answer exists exactly when some candidate matches or is within the threshold and closer than the input is long; it is the earliest candidate at the least distance of all, and equal to the input up to case if some candidate is |
| Parameters.ParseParamList | crates/assura-cli/src/infer.rs:883-927 | the pairs read from a parameter list |
| Parameters.SplitParams | crates/assura-cli/src/infer.rs:889-910 | the segments between commas that neither `<>` nor `()` enclose |
| Parameters.ScanType | crates/assura-cli/src/infer.rs:895-909 | scanning any printed type restores both depth counters and exposes no top-level comma |
| Parameters.ParamListRoundTrip | crates/assura-cli/src/infer.rs:883-927 | printing any list of receivers and named types and parsing it gives the named parameters back |
| Parameters.SegmentsAreRead | crates/assura-cli/src/infer.rs:883-927 | names with types, receivers and texts without a colon or with no name in front of it, between commas and with any white space around all of them: exactly the names and types are read, in order |
| Parameters.TrailingCommaIsHarmless | crates/assura-cli/src/infer.rs:883-927 | a printed list with a comma and white space behind it is read as the same parameters |
| Parameters.NoColonNoParameters | crates/assura-cli/src/infer.rs:917-923 | a list without a colon, whatever its brackets, declares nothing |
| Parameters.ListIsSegments | crates/assura-cli/src/infer.rs:883-912 | for any text, white space around the list changes nothing |
| Parameters.TrimsBlanks | crates/assura-cli/src/infer.rs:884 | trimming removes exactly the white space around a text |
| Signatures.ParseFnSignature | crates/assura-cli/src/infer.rs:818-880 | the outcome on every text: a signature, nothing, or a crash, slices inside a character included |
| Signatures.ScanClose | crates/assura-cli/src/infer.rs:837-852 | the offset of the matching parenthesis, 0 without one |
| Signatures.CloseSkipsType | crates/assura-cli/src/infer.rs:837-852 | a printed type never closes an enclosing parenthesis |
| Signatures.CloseSkipsParams | crates/assura-cli/src/infer.rs:837-852 | nor does a printed parameter list |
| Signatures.ReturnRoundTripIff | crates/assura-cli/src/infer.rs:857-871 | the return type is read back, whatever white space is around it and whatever follows the brace, exactly when its text does not contain `where` |
| Signatures.NameRoundTrip | crates/assura-cli/src/infer.rs:820-828 | the name is what stands before the first `<`, white space around both removed |
| Signatures.SignatureRoundTrip | crates/assura-cli/src/infer.rs:818-880 | a rendered signature gives its name, named parameters and return type back |
| Signatures.CrashesIff | crates/assura-cli/src/infer.rs:818-856 | the scanner slices past the end or inside a character exactly on a well-named signature whose first open parenthesis is never closed and is followed by nothing or by a character that is not ASCII |
| Signatures.SkippedIff | crates/assura-cli/src/infer.rs:818-833 | nothing is read exactly from a text without an open parenthesis, or without a name in front of the first one |
| Parameters.NameCharIff | crates/assura-cli/src/infer.rs:831-833 | a name consists of ASCII letters, digits and underscores |
| Signatures.UnclosedListIsEmpty | crates/assura-cli/src/infer.rs:835-872 | a list that is never closed is read as no parameters, unless the scanner crashes |
| Signatures.ClosureBoundIsRead | crates/assura-cli/src/infer.rs:818-852 | the parentheses of a closure bound such as `<F: Fn(i64) -> i64>` are taken for the parameter list, and the parameters are lost |

## Left out

- Soundness.SourceTypeIsEmitted: leaves out floats, fields, `old` of anything but a name, casts to types other than Int and Nat, an `if` between byte strings, and the `u128` path; `Text` and `Intended` cover them, `SourceType` does not.
- Meanings.EmittedComputesMeaning: speaks of supported expressions. A sum that is not supported is widened instead of wrapped, or rejected, as `Soundness.SumCompilesIff` says.
- Wrapping.CompilesIff: speaks of names and literals; lengths, casts and `let` inside same-kind trees are covered by `Meanings.EmittedComputesMeaning`.
- Monitoring.UncheckedIff: leaves out clauses with a field access inside a larger expression, which the test is meant to flag; `Monitoring.PathIsUncheckedIff` has the paths themselves.
- Exactness.WideningIsExact: is stated for names, literals, negation and arithmetic; `if` and `let` are covered by `Meanings.EmittedComputesMeaning`.
- Checker.CheckIsFaithful: takes every `old` to be of a parameter and the output's alias to be no parameter's name; snapshots of field paths are covered by `Prologues.EmittedSnapshotsIff`, and those of other operands by `Prologues.SnapshotMeansOperand`.
- Typestate.GenerateTypestate: requires distinct state names; a state declared twice gives two marker types of one name, which Rust rejects. `Typestate.Compiles` asks the same, and that no name is defined twice.
- Typestate.RunIsDeterministic: speaks of clauses in the generator's form; a target such as `self.state != S` leaves the machine a choice.
- TestInputs.InputsMatchTexts: speaks of bounds on Int and Nat parameters; narrower integer types have strategies in `Ranges` but no Rust type in the model.
- Negative literals elsewhere than on the left of a subtraction: literals of the model are not negative, and `-5` is the negation of 5, so a bound such as `x > -5` counts as an assumption.
- Unicode letters in the test for dotted words: the lexer's identifiers are ASCII (`crates/assura-parser/src/lexer.rs:420`).
- Signatures.ParseFnSignature: takes names and spaces to be ASCII; Unicode letters and spaces are not modelled.
- Casts to types that are no numbers: the type's name is emitted as in the source, but nothing is proved of it.
- Emitted text is modelled as tokens: spacing, and an identifier that merges with a neighbour, are not.
- Integer literals are values; spellings such as `00` or hexadecimal are not modelled, nor are literals above `u128::MAX`.
- Method and function calls other than the length (spelled `length`; `len` and `size` are the same), indexing, lists, tuples, `match`, blocks, ghost blocks, lemma applications, quantifiers, membership, concatenation, raw tokens and an `if` without `else` in emitted expressions.
- Emission for constants and statics, and Rust's rules for expressions at the start of a statement.
- Type inference across statements: an unsuffixed literal bound by `let` is taken as `i32`.
- Release builds, where debug assertions are off and widened arithmetic wraps, and the runtime-check form of an assertion.
- The body of `check`: it is any result that leaves parameters and snapshots unchanged. Error enums, feature annotations, effects and modifies clauses and interface traits are not part of the model.
- `old` in requires and invariant clauses, for which no snapshot is taken.
- The kind sets of synthesised parameters: they are computed before the parameters are added, so the parameters are hidden names and sums over them are widened.
- Names that start with `__assura_`: they are reserved for the generator.
- Bodies, parameters, queries' results and invariants of services, and services without states; on a method with a transition the remaining ensures clauses are not asserted at all.
- Strategies for parameters without bounds or of non-integer types.
- Collecting signatures from source lines and stripping their modifiers.
- Formatting with external tools, file output, compilation, language-model calls and the command line.
