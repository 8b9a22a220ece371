# A verified model of the core of a SysY-to-MIPS compiler

This project models, in Dafny, the core of a student compiler that turns
SysY (a C subset) into LLVM-style IR and then into MIPS assembly. It covers
four groups of logic.

- **Backend** (`MipsGenModule`):
  - the memoised storage map that gives every IR value a `$gp` label or a `$sp` slot;
  - the `load`/`store` helpers;
  - multiplication by a constant, by shift shortcuts;
  - division by a constant: power-of-two shifts and the signed magic-number multiply of Hacker's Delight, chapter 10;
  - `getelementptr` address folding;
  - the call/return frame layout and the callee prologue;
  - branches and conversions.

  Emitted code is a sequence of abstract MIPS instructions. A small interpreter runs it over 32-bit registers and word memory (`Mips.Run`), and the lemmas state what the code leaves behind.
- **IR builder** (`LLVMGenerator`):
  - the paired symbol/constant scope stacks;
  - `calculate` with Java `int` semantics;
  - const-context folding through `saveValue`/`saveOp`;
  - `Integer.parseInt` of literals;
  - scalar declarations, including global initialisers;
  - blocks and function definitions;
  - the lowering of `printf` into `putch`/`putint` calls.
- **Def-use bookkeeping** (`User`): operand-list mutations and the use records they add or drop.
- **Front end**:
  - the parent-chained `SymbolTable`;
  - the recursive-descent `Parser`: `match` with error recovery, the list-shaped expression productions, `LVal`, `FuncFParam`, statement assignment detection and lookahead dispatch;
  - the `PrimaryExpNode` three-way node.

Machine words are `int`s kept in [-2^31, 2^31). Every register or memory
write wraps explicitly (`Int32.Wrap`). Java `/` and `%` are written out as
truncating operations (`Int32.TDiv`, `ConstFold.JavaDiv`, `ConstFold.JavaRem`).
Java exceptions that the modelled code can raise are results
(`ConstFold.Outcome`, `Option`). Singletons and mutable fields become
explicit state records threaded through pure functions.

Files (one module each): `base.dfy`, `int32.dfy`, `mips.dfy`, `storage.dfy`,
`magic.dfy`, `mulgen.dfy`, `divgen.dfy`, `gep.dfy`, `calls.dfy`, `branch.dfy`,
`scopes.dfy`, `ast.dfy`, `constfold.dfy`, `irbuild.dfy`, `printf.dfy`,
`defuse.dfy`, `symtab.dfy`, `nodes.dfy`, `parser.dfy`.

## Model

| member | source | states |
|---|---|---|
| Storage.GetGp | src/backend/MipsGenModule.java:117-122 | A name already mapped is left as it is. A fresh name is mapped to its label and nothing else changes. The stack cursor never moves, and the no-aliasing invariant of the storage map is kept. |
| Storage.GetSp | src/backend/MipsGenModule.java:124-130 | Memoised: a mapped name changes nothing. A fresh name lowers `spOff` by exactly 4 and is mapped to the new `spOff`, and stack slots stay aligned and pairwise distinct. |
| Storage.GetSpArray | src/backend/MipsGenModule.java:132-140 | A fresh array name takes one pointer word. The cursor then drops by the array's byte size. A mapped name emits nothing and changes nothing. |
| Storage.SpArrayStoresAddress | src/backend/MipsGenModule.java:132-140 | Running the emitted `addu`/`sw` stores the address `$sp + spOff` of the reserved block into the name's pointer word. |
| Storage.ParseAlloca | src/backend/MipsGenModule.java:329-344 | Scalars and pointers to scalars take one word. Arrays and pointers to arrays take a pointer word plus 4 × capacity bytes. The cursor never rises, and validity is kept. |
| Storage.LoadEffect | src/backend/MipsGenModule.java:439-450 | The load code of an operand sets exactly the target register to the operand's value: a literal, an int global through its label, or a stack word. |
| Storage.StoreStackEffect | src/backend/MipsGenModule.java:456-465 | Storing to a stack-mapped name writes the register's word at `$sp + offset` and nothing else. |
| Storage.StoreGlobalEffect | src/backend/MipsGenModule.java:456-465 | Storing to an int global goes through `$t1` = its label and writes the word there. |
| MulGen.CalcMulCorrect | src/backend/MipsGenModule.java:281-286 | The generic `calc` path with `mul` stores the product of the two operands wrapped to 32 bits. |
| MulGen.OptimizeMulCorrect | src/backend/MipsGenModule.java:191-214 | Every shortcut (0, 1, 2, -1, powers of two including MIN_VALUE) stores `x * imm` mod 2^32 when the power-of-two shift is the exact exponent. |
| MulGen.Pow2TestSign | src/backend/MipsGenModule.java:207 | Among non-zero words, `(imm & (imm - 1)) == 0` holds only for positive powers of two and for MIN_VALUE. |
| MulGen.AsWrittenAgrees | src/backend/MipsGenModule.java:191-214 | The shortcut code as written is the exact code for every constant except MIN_VALUE, and differs from it there. |
| MulGen.ParseMulCorrect | src/backend/MipsGenModule.java:158-214 | As written, `parseBinary` for `mul` stores the wrapped product, except when the constant it picks (the left one if there is one, else the right one) is MIN_VALUE: then it stores the other operand. |
| MulGen.ParseMulExactCorrect | src/backend/MipsGenModule.java:158-165 | With the MIN_VALUE shortcut shifting by 31, every path of `parseBinary` for `mul` stores the wrapped product. |
| MulGen.MulMinValueCounterexample | src/backend/MipsGenModule.java:207-210 | As written, `x * MIN_VALUE` with the constant as right operand and x = 1 at run time stores 1, not MIN_VALUE: MIN_VALUE passes `imm & (imm - 1) == 0`, and the NaN logarithm makes the shift 0. |
| DivGen.GetCTZ | src/backend/MipsGenModule.java:260-268 | For a non-zero argument, the result is floor(log2) of its unsigned reading, so 2^r ≤ u < 2^(r+1). It is always in 0..31. |
| DivGen.ChooseMultiplier | src/backend/MipsGenModule.java:270-279 | For 3 ≤ d < 2^31, the loop stops at the least p ≥ 32 whose magic number m satisfies the Hacker's Delight bound. It returns 0 < m < 2^32 and shift p - 32 ≤ 30. |
| DivGen.Pow2KernelCorrect | src/backend/MipsGenModule.java:226-234 | `sra 31; srl 32-l; addu; sra l` leaves n / 2^l rounded toward zero in `$t0`, for every word n. |
| DivGen.MagicKernelCorrect | src/backend/MipsGenModule.java:236-251 | `mult`/`mfhi` (plus n when m ≥ 2^31), `sra sh`, plus the sign bit leaves n / d rounded toward zero, for every word n. |
| DivGen.OptimizeDiv | src/backend/MipsGenModule.java:216-258 | For any non-zero divisor, in every machine state, the stored word is the Java quotient `x / imm`, including MIN_VALUE / -1 and divisors of either sign. |
| DivGen.DivCodeCorrect | src/backend/MipsGenModule.java:225-257 | A kernel that divides by |imm|, followed by `negu` for a negative imm, stores the truncating quotient by imm. |
| Gep.StrideIsProduct | src/backend/MipsGenModule.java:379-385 | The stride of index i is 4 × the product of `dims[i-1..]` in Java `int` arithmetic. |
| Gep.GepCorrect | src/backend/MipsGenModule.java:368-415 | With the pending offset cleared after it is emitted, the GEP stores base + Σ index·stride over the indices walked, mod 2^32, for constant and run-time indices alike. |
| Gep.GepAsWrittenCountsTwice | src/backend/MipsGenModule.java:388-414 | As written, indices [1, x, 0] on an `int[2][3]` target, with x = 0, store base + 48 where base + 24 is meant. |
| Gep.AddedPendingClear | src/backend/MipsGenModule.java:388-404 | Whether or not the pending constant offset is cleared after a run-time index makes no difference when nothing is pending at each run-time index. |
| Gep.GepAsWrittenCorrect | src/backend/MipsGenModule.java:368-415 | As written, the GEP stores base + Σ index·stride mod 2^32 whenever no constant offset is pending when a run-time index is met (for example, all constants come after the last run-time index). |
| Gep.GepAsWrittenConstCorrect | src/backend/MipsGenModule.java:388-404 | As written, a GEP whose indices are all constants stores base + Σ index·stride mod 2^32. |
| Gep.GepString | src/backend/MipsGenModule.java:370-373 | A GEP of a string constant only puts the string's label in `$a0` and leaves memory alone. |
| Calls.ArgumentsReachParameters | src/backend/MipsGenModule.java:89-96 | After the caller's argument stores and `$sp` adjustment, the callee prologue reads parameter i from the word where argument i + 1 was written. |
| Calls.CallEntryRun | src/backend/MipsGenModule.java:303-311 | The caller saves `$ra` at `spOff - 4` and writes argument k at `spOff - 4(k + 1)`. It then lowers `$sp` by the frame it used. |
| Calls.CallExitRun | src/backend/MipsGenModule.java:312-318 | The two `$sp` adjustments cancel, `$ra` is reloaded from where it was saved, and a non-void result is stored from `$v0`. |
| Calls.RetRun | src/backend/MipsGenModule.java:322-327 | `ret v` leaves v's value in `$v0`. |
| Calls.GetIntRun | src/backend/MipsGenModule.java:291-293 | A `getint` call stores the next input integer into the call's word. |
| Calls.PutRun | src/backend/MipsGenModule.java:294-299 | `putint`/`putch` append the argument's value to the output as an integer or a character. |
| Calls.PrintStringRun | src/backend/MipsGenModule.java:300-301 | `putstr` after the string GEP prints the string at the label. |
| Branch.BrTarget | src/backend/MipsGenModule.java:417-425 | A conditional branch transfers to the false label exactly when the condition word is 0, otherwise to the true label. A plain branch goes to its label. |
| Branch.BrKeepsMemory | src/backend/MipsGenModule.java:417-425 | Branch code writes no memory. |
| Branch.ConvRun | src/backend/MipsGenModule.java:427-437 | `zext` stores the low 16 bits of the operand, and `bitcast` stores the operand unchanged. |
| Branch.ZextBool | src/backend/MipsGenModule.java:427-432 | On a 0/1 truth value, `zext` stores the value itself. |
| Scopes.FindInnermost | src/ir/LLVMGenerator.java:49-56 | Lookup returns the binding of the innermost table that has the name. |
| Scopes.FindMiss | src/ir/LLVMGenerator.java:49-56 | Lookup misses exactly when no table has the name. |
| Scopes.AddThenFind | src/ir/LLVMGenerator.java:45-47 | After adding to the innermost table, the name finds the new value and every other name finds what it found before. |
| Scopes.ChangeHit | src/ir/LLVMGenerator.java:80-87 | `changeConst` overwrites only the innermost table holding the name. |
| Scopes.ChangeMiss | src/ir/LLVMGenerator.java:80-87 | `changeConst` is a no-op on a miss. |
| Scopes.ChangeKeepsKeys | src/ir/LLVMGenerator.java:80-87 | `changeConst` never adds or removes a binding. |
| Scopes.PushPop | src/ir/LLVMGenerator.java:109-117 | A fresh innermost table changes no lookup, and popping it restores the stack. |
| ConstFold.GetConstLookup | src/ir/LLVMGenerator.java:71-78 | `getConst` returns the innermost binding, and 0 when no table binds the name. |
| IrBuild.GetValueLookup | src/ir/LLVMGenerator.java:49-56 | `getValue` is null exactly when no table binds the name, and otherwise gives the innermost binding. |
| IrBuild.AddSymbol | src/ir/LLVMGenerator.java:41-47 | Binds only in the innermost symbol table. Outer tables and the constant stack are unchanged. |
| IrBuild.AddConst | src/ir/LLVMGenerator.java:63-69 | Binds only in the innermost constant table. Outer tables and the symbol stack are unchanged. |
| IrBuild.PushTables | src/ir/LLVMGenerator.java:109-112 | Both stacks grow by one table and keep their old contents below it. Equal depths stay equal. |
| IrBuild.PopTables | src/ir/LLVMGenerator.java:114-117 | Both stacks shrink together, so equal depths stay equal. |
| IrBuild.Start | src/ir/LLVMGenerator.java:123-128 | The initial single global table binds exactly the four library functions. |
| IrBuild.VisitItem | src/ir/LLVMGenerator.java:335-342 | A block item only binds in the innermost tables. A nested block returns the builder exactly as it found it. |
| IrBuild.VisitFuncDef | src/ir/LLVMGenerator.java:237-262 | A function definition adds only the function's name to the global table and leaves the builder global again. |
| IrBuild.VisitCompUnit | src/ir/LLVMGenerator.java:122-138 | A whole compilation unit ends with one table pair and the builder in the global context. |
| IrBuild.GlobalVarInit | src/ir/LLVMGenerator.java:200-216 | A global scalar without an initialiser is bound to 0. With one, it is bound to the initialiser folded in const context, or the folding's exception propagates. |
| IrBuild.ConstDefBinds | src/ir/LLVMGenerator.java:157-175 | A scalar constant records its folded value in the constant table and binds a constant value in the symbol table. |
| IrBuild.DefTouchesOnlyItsName | src/ir/LLVMGenerator.java:157-224 | A declaration changes the lookups of no other name. |
| ConstFold.Calculate | src/ir/LLVMGenerator.java:89-104 | Add, Sub and Mul agree with the exact result mod 2^32. Div truncates toward zero, with MIN_VALUE / -1 = MIN_VALUE. Mod has the dividend's sign and a smaller magnitude than the divisor. Division by zero throws, and other operators give 0. |
| ConstFold.DivModIdentity | src/ir/LLVMGenerator.java:89-104 | Quotient × divisor + remainder = dividend, and MIN_VALUE % -1 = 0. |
| ConstFold.ParseIntToString | src/ir/LLVMGenerator.java:472-480 | Parsing the decimal text of any Java `int` gives it back. |
| ConstFold.ExpAgrees | src/ir/LLVMGenerator.java:482-611 | The const-context visitor, which threads `saveValue`/`saveOp` through right-nested nodes, computes the left-associative fold of each operand list. Unary minus negates, and failures (division by zero, null unboxing) are the same. |
| ConstFold.IndexedReadsZero | src/ir/LLVMGenerator.java:426-437 | An indexed constant read looks up a key that the scalar declarations never bind, so it folds to 0. |
| Printf.JoinSplit | src/ir/LLVMGenerator.java:384 | Splitting at every `%d` and joining the pieces with `%d` gives back the format. |
| Printf.SplitCount | src/ir/LLVMGenerator.java:384 | Splitting with every piece kept yields one more piece than there are `%d` markers. |
| Printf.EmitPrints | src/ir/LLVMGenerator.java:390-400 | The per-piece loop prints the concatenated pieces as characters. It prints as many leading arguments as there are pieces and arguments, in order. |
| Printf.LowerPrintfMeaning | src/ir/LLVMGenerator.java:383-402 | All arguments are lowered first. Then every character of the normalised format becomes a `putch`, and every `%d` a `putint` of the next argument. |
| Printf.AsWrittenAgreesWithoutTrailingMark | src/ir/LLVMGenerator.java:384 | When the last piece is non-empty, Java's `split` keeps every piece, and the source's lowering equals the corrected one. |
| Printf.AsWrittenAgreesIff | src/ir/LLVMGenerator.java:384-400 | For any format and number of arguments, the source's lowering emits exactly the corrected calls if and only if both print equally many arguments. Java's `split` drops only trailing empty pieces, which matter only through the `putint` after each. |
| Printf.AsWrittenAgreesWithMatchingArgs | src/ir/LLVMGenerator.java:384-400 | With one argument per `%d`, the source's lowering is the corrected one exactly when the last two pieces are not both empty. `"x=%d"` keeps its argument, while `"%d"` and a format ending in `%d%d` lose the last one. |
| Printf.AsWrittenDropsArgument | src/ir/LLVMGenerator.java:383-402 | As written, `printf("%d", x)` computes x but prints nothing. |
| Printf.DroppedSecondArgument | src/ir/LLVMGenerator.java:384-400 | As written, `"a%d%d"` with two arguments prints `a` and only the first one. |
| DefUse.AddOperand | src/ir/values/User.java:49-54 | Appends the operand. A non-null one gains a use at the old length, and no other value's uses change. Coverage and staleness invariants are kept. |
| DefUse.SetOperand | src/ir/values/User.java:29-47 | A position past the end changes nothing. Otherwise only that slot changes, a non-null value gains a use there, and no other use list changes. |
| DefUse.RemoveUseFromOperands | src/ir/values/User.java:56-65 | The operand list is unchanged. Every operand loses this user's records, non-operands keep theirs, and other users' records stay. |
| DefUse.RemoveNumberOperand | src/ir/values/User.java:67-78 | The result holds the operands outside idx in their order, each recorded at its new position. It fails exactly when a kept operand is null. Starting with no stale records, the records of this user are exactly its slots. |
| DefUse.ReplaceValue | src/ir/values/User.java:90-97 | Every slot that held old holds new, and the others are unchanged. No slot holds old, old records no use by this user, and coverage and staleness are kept. |
| DefUse.GuardIrrelevantWithoutRecords | src/ir/values/User.java:81-94 | Inside `replaceOperands(old, new)` the old value has no records left, so the guard of the single-slot replace cannot change the result. |
| DefUse.ReplaceValueAsWrittenAgrees | src/ir/values/User.java:89-97 | `replaceOperands(old, new)` as written, with the dead guard in the single-slot replacement, leaves the same operands and the same use list for every value as the corrected one, because the old value's records of this user are dropped before the loop. |
| DefUse.ReplaceAtAsWritten | src/ir/values/User.java:81-87 | As written, replacing one slot is exactly `setOperands`: the old operand's records are never dropped. |
| DefUse.ReplaceAt | src/ir/values/User.java:81-87 | Corrected, replacing one slot keeps every non-null slot recorded and leaves no record on a value that is no longer an operand. |
| DefUse.ReplaceAtKeepsRecordIffStillUsed | src/ir/values/User.java:81-87 | Corrected, the old operand keeps a record of this user exactly when it is still an operand. |
| DefUse.StaleUseCounterexample | src/ir/values/User.java:81-87 | Replacing the only operand leaves a stale record as written, and none when corrected. |
| SymTab.GetFindsBinding | src/symbol/SymbolTable.java:18-26 | `get` is non-null exactly when some table of the parent chain binds the name to a non-null symbol. |
| SymTab.GetIsFirstBinding | src/symbol/SymbolTable.java:18-26 | `get` returns the binding of the nearest such table. |
| SymTab.ContainsSomewhere | src/symbol/SymbolTable.java:28-35 | `contains` holds exactly when some table of the chain has the key. |
| SymTab.CurrentIgnoresParent | src/symbol/SymbolTable.java:37-39 | `containsInCurrent` consults only the current table. |
| SymTab.PutThenGet | src/symbol/SymbolTable.java:41-43 | After `put(x, s)` with non-null s, `get(x)` is s, every other name's lookups are unchanged, and the parent is the same. |
| SymTab.ChildSeesParent | src/symbol/SymbolTable.java:14-16 | A new child table sees exactly what its parent sees and holds nothing itself. |
| SymTab.NullBindingDisagreement | src/symbol/SymbolTable.java:19-30 | `contains` is true while `get` is null exactly when every table holding the key maps it to null. |
| Nodes.FromParen | src/node/PrimaryExpNode.java:18-22 | The parenthesised constructor fills only the expression alternative. |
| Nodes.FromLVal | src/node/PrimaryExpNode.java:24-26 | The l-value constructor fills only the l-value alternative. |
| Nodes.FromNumber | src/node/PrimaryExpNode.java:28-30 | The number constructor fills only the number alternative. |
| Nodes.NodeRoundTrip | src/node/PrimaryExpNode.java:18-30 | The five nullable fields and the three-way sum describe the same nodes: a built node holds exactly one alternative. |
| Nodes.GetValue | src/node/PrimaryExpNode.java:32-40 | The value of the first set field in the order exp, lval, number. It fails exactly when none is set. |
| Nodes.GetValueOfAlternative | src/node/PrimaryExpNode.java:32-40 | On a built node, `getValue` is the value of the alternative it holds. |
| Nodes.DelegatesToAlternative | src/node/PrimaryExpNode.java:55-71 | On a built node, `fillSymbolTable` and `getFuncRParam` act as the alternative of the three-way sum it holds: the expression, the l-value, or, for a number, no change and an unnamed scalar. |
| Nodes.LiteralArgument | src/node/PrimaryExpNode.java:63-71 | A literal argument is `FuncRParam(null, 0)` and leaves the symbol table unchanged. |
| Parser.Match | src/frontend/Parser.java:613-629 | `match` never moves back. It advances by exactly one precisely when the current token has the wanted type, and the token returned always has that type. |
| Parser.MatchBehaviour | src/frontend/Parser.java:613-629 | On a hit, the current token is returned. On a miss, `;`, `)` and `]` record errors i, j and k at the previous token's line, and other types record nothing. |
| Parser.ParseAddExp | src/frontend/Parser.java:532-546 | An AddExp has one operator fewer than operands, all PLUS/MINU, and every operand is itself well-shaped. |
| Parser.ParseMulExp | src/frontend/Parser.java:514-530 | A MulExp has one operator fewer than operands, all MULT/DIV/MOD. |
| Parser.ParseRelExp | src/frontend/Parser.java:548-566 | A RelExp has one operator fewer than operands, all LSS/LEQ/GRE/GEQ. |
| Parser.ParseEqExp | src/frontend/Parser.java:568-582 | An EqExp has one operator fewer than operands, all EQL/NEQ. |
| Parser.ParseLAndExp | src/frontend/Parser.java:584-594 | An LAndExp has one operator fewer than operands, all AND. |
| Parser.ParseLOrExp | src/frontend/Parser.java:596-606 | An LOrExp has one operator fewer than operands, all OR. |
| Parser.ParseUnaryExp | src/frontend/Parser.java:468-487 | A UnaryExp is a call exactly when an Ident is followed by `(`. It is a unary-operator form exactly when it is not a call and the token is `+`, `-` or `!`. |
| Parser.ParseCall | src/frontend/Parser.java:470-479 | A call has no argument list exactly when `)` follows the `(`. |
| Parser.ParseFuncRParams | src/frontend/Parser.java:502-512 | An argument list has one comma fewer than expressions. |
| Parser.ParsePrimaryExp | src/frontend/Parser.java:446-461 | The result is a parenthesised expression exactly when the token is `(`, and a number exactly when it is an integer literal. |
| Parser.ParseLVal | src/frontend/Parser.java:432-444 | An LVal has equally many `[`, index expressions and `]`. |
| Parser.ParseFuncFParam | src/frontend/Parser.java:270-287 | Without brackets the three lists are empty. With brackets there are #dims + 1 `[` and as many `]`. |
| Parser.ParseFParamBrackets | src/frontend/Parser.java:277-285 | The parameter has brackets exactly when `[` follows its name. |
| Parser.ScanAssign | src/frontend/Parser.java:383-388 | The scan finds an `=` after the current token on the current line exactly when there is one, and returns the last such position. |
| Parser.ParseFallbackStmt | src/frontend/Parser.java:382-419 | The fallback statement is an assignment exactly when an `=` follows on the same line. Otherwise it is `[Exp] ;`, with an expression exactly when the token can start one. Without either, it consumes exactly the `;` if the token is one, and nothing otherwise: on a stray `)` the statement makes no progress. |
| Parser.ParseAssignRight | src/frontend/Parser.java:389-404 | The right-hand side is `getint()` exactly when that keyword follows the `=`. |
| Parser.ParseStmt | src/frontend/Parser.java:311-419 | A statement takes a keyword alternative exactly when the token is `{`, `printf`, `if`, `while`, `break`, `continue` or `return`. Otherwise it takes the fallback branch and ends where that branch ends, which never moves back. |
| Parser.ParseBlockItem | src/frontend/Parser.java:300-310 | A block item holds exactly one of a declaration and a statement. The declaration is what `Decl` parses, and the statement what `Stmt` parses. |
| Parser.BlockItemFollowsGrammar | src/frontend/Parser.java:300-419 | The first sets of `Decl` and `Stmt` are disjoint. On every token the item is a declaration exactly when the token is `const` or `int`. On a token from either first set, it is a statement exactly when the token starts a `Stmt`. A statement that starts like an expression is an assignment exactly when an `=` follows on the line. |

## Left out

- Text output: the data section, macro stubs, the startup stanza, comments and label lines of `genMips` (src/backend/MipsGenModule.java:36-82, 97-110) are string emission. The emitted code is a sequence of abstract instructions.
- Instruction translations not listed above (`parseLoad`, `parseStore`, the other `calc` operators and `not`) are not part of this model. Their code is the same load/compute/store pattern that `Storage.LoadEffect` and `Storage.StoreStackEffect` describe.
- MulGen.OptimizeMulCorrect: `(int)(Math.log(imm) / Math.log(2))` is floating point. For positive powers of two the quotient is taken as the exact exponent (`MulGen.JavaLogShift`). This lemma is about the corrected shortcut. Finding 4 covers the negative case, and `MulGen.ParseMulCorrect` states what the code as written stores.
- DivGen.OptimizeDiv: requires a non-zero divisor, because the source would emit `srl` by 32 for it.
- Calls.GetIntRun: reading past the end of the input yields 0 in the model, where the simulator would block or fail.
- IrBuild: array declarations, relational/logical lowering and indexed l-values are empty TODO branches in the source. Non-constant local initialisers build IR through a factory that is not part of this model. Function parameters are bound as locals.
- IrBuild.VisitFuncDef: the parameter dimensions are not modelled. In `visitFuncFParam` the loop over the bracket expressions is guarded by an inverted emptiness test and never runs.
- ConstFold: the additive strength-reduction rewrite of `visitAddExp` in non-const context (src/ir/LLVMGenerator.java:581-600) depends on node text that is not part of this model.
- ConstFold.VisitUnary: a call in const context visits its arguments and then leaves the fold state as those visits left it. The folded value is the last argument's value, because `saveValue` is what the arguments last set. Without arguments, the state is unchanged. A `!` in const context leaves the folded value as it is. Both cases assume that the builder calls the source still makes there, `buildFactory.buildCall` (src/ir/LLVMGenerator.java:492) and `buildFactory.buildNot` (src/ir/LLVMGenerator.java:507), do not throw when the current block is null at global scope. `BuildFactory` is not part of this model.
- ConstFold.ParseInt: an optional leading `-` or `+` followed by ASCII decimal digits is accepted, as `Integer.parseInt` does. Its other Unicode decimal digits are not, since the lexer never produces them.
- SymTab: a table holds its parent as a value. A child therefore sees the parent as it was when the child was created, while in the source the parent is a shared reference, so a later `put` into the parent is seen through every existing child. `SymTab.ChildSeesParent` states only the view at creation.
- Scopes.ChangeHit: `changeConst` is never called in the source. It is modelled for its own sake.
- Printf: the IR of an argument expression is abstract (`LowerArg(i)`). Only the order of lowering and output calls is modelled.
- DefUse: `Value.addUse` and `Value.removeUseByUser` are not part of this model. The first is taken to append a record. The second is taken to delete every record whose user is the given one.
- DefUse.SetOperand: positions are `nat`. A negative position would make Java's `List.set` throw.
- DefUse.ReplaceAt: requires an index inside the list, where Java's `get` would throw.
- DefUse.RemoveNumberOperand: when it fails on a null kept operand, the partially rebuilt state is not modelled.
- Parser: reading past the last token yields an EOF token. Java would throw an index exception. The line of the previous token at index 0 is taken as 0.
- Parser: declarations, initialisers and the keyword-led statement forms are not modelled. Neither is termination on inputs that make the `Block`/`InitVal` loops spin.
- Nodes: the child nodes (`ExpNode`, `LValNode`, `NumberNode`) are abstract functions passed in.
- I/O (`IOUtils`), the debug print in `visitLVal`, and the `print`/`printParseAns` methods are left out.

## Findings

| source | as written | input that shows it | evidently intended | confidence | as-written member | corrected member |
|---|---|---|---|---|---|---|
| src/ir/LLVMGenerator.java:384 | `split("%d")` drops trailing empty pieces. With one argument per marker, the last argument is never printed when the last two pieces are both empty, that is, when the format is `%d` or ends in `%d%d`. A format such as `"x=%d"` loses only an empty piece and still prints its argument | `printf("%d", x)` prints nothing; `printf("a%d%d", x, y)` prints `a` and x only | every `%d` prints the next argument (`split("%d", -1)`) | high; not executed | Printf.AsWrittenDropsArgument | Printf.LowerPrintfMeaning |
| src/ir/values/User.java:84 | the guard `!operands.contains(value)` tests the value `setOperands` just stored, so it is always false | user 0 with operands [v1], replace slot 0 by v2: v1 keeps the record (0, 0) | drop the old operand's records when it no longer occurs (`!operands.contains(operand)`) | high; not executed | DefUse.StaleUseCounterexample | DefUse.ReplaceAtKeepsRecordIffStillUsed |
| src/backend/MipsGenModule.java:388-404 | `lastOff` is added before a run-time index but not cleared, so it is added again later | indices [1, x, 0] on `int[2][3]` with x = 0 store base + 48 | base + 24: each constant contribution added once | high; not executed | Gep.GepAsWrittenCountsTwice | Gep.GepCorrect |
| src/backend/MipsGenModule.java:207-210 | `Integer.MIN_VALUE` passes `imm & (imm - 1) == 0`, but `Math.log` of it is NaN and the shift becomes 0 | `x * MIN_VALUE`, with the constant as right operand and x = 1 at run time, stores 1 | shift by 31, storing `x * MIN_VALUE` mod 2^32 | high; not executed | MulGen.MulMinValueCounterexample | MulGen.ParseMulExactCorrect |
