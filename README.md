# A verified model of a tiny C-to-WebAssembly compiler

The modelled repository compiles a small C-like expression language to a WebAssembly
binary module, in a browser. Its core has four parts:

- a lexer, `tokenize.c`. It turns a NUL-terminated text into tokens stored in a 512-slot
  array, which is read through a global cursor.
- a recursive-descent parser, the first half of `codegen.c`. It builds a syntax tree in a
  512-slot node arena.
- a code generator, the second half of `codegen.c`. It emits stack-machine instructions and
  tracks the operand-stack depth.
- the module assembler `compile()` in `main.c`. It writes a complete module whose `main`
  returns `atoi` of the input buffer. It has its own unsigned LEB128 encoder and a length
  predictor for it.

They use the string and memory primitives of `standard_functions.c`, the signed LEB128
macro of `standard_functions.h` and the character classes of `defines.h`.

Each source file keeps its own form in the model.

- **The lexer** is a class `Tokenizer.Lexer`. Its array field `allTokens` is `AllTokens`
  and its field `current` is `_CurrentToken`.
  - `Tokenize` is proved to write `Scan(p, 0)`, a recursive specification function, into
    the first slots and to leave every other slot zero.
  - Lemmas about `Scan` state what the lexer promises:
    - success exactly when every byte before the terminator can be lexed;
    - exactly one EOF token, last;
    - tokens tiling the text in order;
    - each token well formed for its kind.
- **The parser** is a class `Parsing.Parser` with one method per C function.
  - Each method is proved equal to a pure parse function of `Grammar`, which threads the
    cursor, the error flag and the arena count.
  - Lemmas show that every accepted parse builds a well-formed expression tree and
    allocates exactly its nodes.
  - `Printer` is an independent printer. It writes an expression tree as lexemes with the
    fewest parentheses the grammar needs. The lemmas of `ParserRoundTrip` prove that each
    parse function reads a printed tree back as that very tree. The cursor ends just past
    the tree, the error flag is unchanged, and one arena slot is taken per node. This
    fixes how the grammar groups:
    - `*` `/` bind tighter than `+` `-`, which bind tighter than the comparisons, which
      bind tighter than `==` `!=`, which bind tighter than `=`;
    - the binary levels fold to the left and `=` folds to the right;
    - unary `+` and parentheses add no node, `-` adds one `ND_NEG` node;
    - a number token becomes an `ND_NUM` leaf with its `int` value.
  - The lemmas of `ProgramRoundTrip` carry this to whole programs. `ParseTokens` reads
    statements printed as `expr ;`, one after another up to the EOF token, as one `ND_EXPR`
    node per statement over that statement's tree, in order and with no error.
- **The generator** is a class `Generator.CodeGen` over the output array. Its fields are
  `n_byte_length`, `c` and `depth`.
  - Each method is proved to append `Code(e)` and to move the depth by `Net(e)`.
  - `StackMachine` is the partner of the generator. It decodes the emitted bytes (section
    5.4 of the WebAssembly Core Specification) and runs them on an i32 stack machine.
  - For a tree without assignments, lemmas prove that running its code pushes its value
    (`ExprExec`, `CodeRuns`).
  - An assignment whose right side has no assignment stores its value and pushes nothing.
  - A statement list is `Runnable` when every assignment in it is a whole statement with
    an assignment-free right side, and every variable's offset byte is below 128. For
    such a list, running the code gives the reference outcome and leaves exactly the
    stack the generator's depth counter predicts (`ProgramRuns`).
  - An assignment used as an operand or nested in another leaves no value on the stack,
    so its code traps (`OperandAssignUnderflows`, `NestedAssignUnderflows`).
- **The assembler** `Assembler.Compile` writes into a `compiled_code` array. It is proved
  to produce exactly `Assembled(n)`.
  - `Assembled(n)` is a module of four sections (section 5.5 of the WebAssembly Core
    Specification).
  - Its sections read back through a section reader.

Notes on the code, which the model follows:

- `compile()` assembles only `atoi` of the input. It never calls the lexer, the parser or
  the generator, and it cannot fail.
- Variables live at `mem_offset(c) = 1024 + (c - 'a') * 4`, truncated to one byte.
- The lexer refuses letters, so no identifier token is ever produced.
- `codegen.c` uses `ND_VAR`, `ND_ASSIGN` and a `name` field that `codegen.h` does not
  declare. The model adds them as `Var`, `Assign` and `name`.
- The immediate of `i32.const` in `compile()` is written with the unsigned encoder (see
  Findings).

## Model

| member | source | states |
|---|---|---|
| Defines.ToI32 | compiler/src/defines.h:21 | the result is an `int` with the same 32-bit pattern as the input |
| Defines.PunctExcludesLettersAndBang | compiler/src/defines.h:5-8 | letters and `!` are neither punctuation, digit nor whitespace |
| Defines.ClassesDisjoint | compiler/src/defines.h:5-8 | digit, whitespace and punctuation are pairwise disjoint and exclude NUL |
| Leb128.ULebRoundTrip | compiler/src/main.c:22-31 | unsigned decoding of the encoder's bytes gives the value and its length back, whatever follows |
| Leb128.ULebContinuation | compiler/src/main.c:22-31 | every unsigned byte but the last has bit 7 set, the last has it clear |
| Leb128.ULebLength | compiler/src/main.c:4-8 | the unsigned length is the least k >= 1 with value < 128^k |
| Leb128.ULebLengthU32 | compiler/src/main.c:4-8 | an `unsigned int` takes one to five bytes |
| Leb128.SLebRoundTrip | compiler/src/standard_functions.h:24-36 | signed decoding of the macro's bytes gives the integer and its length back, whatever follows |
| Leb128.SLebContinuation | compiler/src/standard_functions.h:24-36 | every signed byte but the last has bit 7 set, the last has it clear |
| Leb128.SLebMinimal | compiler/src/standard_functions.h:33 | the loop test stops at the shortest encoding: the value fits its length and not one group fewer |
| Leb128.SLebLengthI32 | compiler/src/standard_functions.h:24-36 | an `int` takes one to five bytes |
| Leb128.SLebExamples | compiler/src/standard_functions.h:24-36 | the encodings of 0, -1, 63, 64 and -64 |
| StandardFunctions.NulIndex | compiler/src/standard_functions.c:19-23 | the first NUL at or after `i`, with no NUL before it |
| StandardFunctions.DigitsEnd | compiler/src/standard_functions.c:131 | the end of the maximal digit run at `i` |
| StandardFunctions.DecimalRoundTrip | compiler/src/standard_functions.c:131-134 | reading back the decimal spelling of `v` gives `v`, and the spelling has no leading zero |
| StandardFunctions.Memcpy | compiler/src/standard_functions.c:12-17 | `dest` is returned; its first `n` bytes become those of `src`, the rest is unchanged |
| StandardFunctions.Strlen | compiler/src/standard_functions.c:19-23 | the result indexes the first NUL |
| StandardFunctions.StartsWith | compiler/src/standard_functions.c:25-32 | true exactly when `q` is a prefix of the string at `p` |
| StandardFunctions.StrLu | compiler/src/standard_functions.c:129-138 | the value of the digit run modulo 2^32, and `end` moved by the run's length |
| StandardFunctions.EncodeLeb128 | compiler/src/standard_functions.h:24-36 | writes exactly the signed encoding at `at`, adds its length to the counter, changes nothing else |
| StandardFunctions.WriteGroups | compiler/src/standard_functions.h:28-33 | the loop stores all groups of the signed encoding, the last one still with bit 7 set, counts them, and changes nothing else |
| Tokens.PunctLen | compiler/src/tokenize.c:29-34 | 2 exactly at a two-byte operator, 1 exactly at another punctuation byte |
| Tokens.ScanSpace | compiler/src/tokenize.c:52-55 | whitespace is skipped without a token |
| Tokens.ScanNumber | compiler/src/tokenize.c:57-63 | a digit run gives one `TK_NUM` token with its `str_lu` value and length |
| Tokens.ScanPunct | compiler/src/tokenize.c:65-70 | a punctuator gives one `TK_PUNCT` token of its length |
| Tokens.ScanStuck | compiler/src/tokenize.c:72-73 | any other byte ends the scan with failure |
| Tokens.ScanEnd | compiler/src/tokenize.c:75-76 | the terminator gives one empty EOF token and success |
| Tokens.ScanCons | compiler/src/tokenize.c:51-70 | at the start of a token, the scan is that token followed by the scan of the rest |
| Tokens.ScanFits | compiler/src/tokenize.c:36-44 | every token written lies inside the text and holds no NUL |
| Tokenizer.ReadPunct | compiler/src/tokenize.c:29-34 | `read_punct` returns `PunctLen` |
| Tokenizer.Lexer.constructor | compiler/src/tokenize.c:5-6 | all 512 slots zero and the cursor at slot 0 |
| Tokenizer.Lexer.CurrentToken | compiler/src/tokenize.c:8-10 | returns the cursor and changes nothing |
| Tokenizer.Lexer.NextToken | compiler/src/tokenize.c:12-15 | the cursor moves by one slot, which is returned |
| Tokenizer.Lexer.ResetCurrentToken | compiler/src/tokenize.c:17-19 | the cursor goes back to slot 0 |
| Tokenizer.Lexer.NewToken | compiler/src/tokenize.c:36-44 | the slot under the cursor gets kind, location and length; the cursor moves by one |
| Tokenizer.Lexer.ClearTokens | compiler/src/tokenize.c:47 | every slot becomes the zero token |
| Tokenizer.Lexer.LexPunct | compiler/src/tokenize.c:65-70 | the slot under the cursor becomes the punctuator token of the `n` bytes at `i`; the index moves past them |
| Tokenizer.Lexer.LexRound | compiler/src/tokenize.c:51-74 | one round skips whitespace or writes the next token of the scan, or stops exactly at a byte that starts no token; the scan still to do shrinks by what it wrote |
| Tokenizer.Lexer.LexNumber | compiler/src/tokenize.c:57-63 | the slot becomes the number token and the text index moves past the digit run |
| Tokenizer.Lexer.Tokenize | compiler/src/tokenize.c:46-77 | success is `Scan(p, 0).ok`; the array holds the scanned tokens then zero slots; the cursor is past the last token |
| LexerProperties.ScanOkIff | compiler/src/tokenize.c:51-74 | lexing succeeds exactly when every byte before the terminator is whitespace, a digit, punctuation or the `!` of `!=` |
| LexerProperties.ScanEof | compiler/src/tokenize.c:72-76 | on success exactly one EOF token, last, empty, at the terminator; on failure none |
| LexerProperties.ScanTiles | compiler/src/tokenize.c:51-74 | the tokens tile the text in order with only whitespace between them |
| LexerProperties.TilesOrdered | compiler/src/tokenize.c:51-74 | in a tiling each token ends before the next starts and inside the text |
| LexerProperties.ScanWellFormed | compiler/src/tokenize.c:57-70 | a number token is a maximal non-empty digit run with its value; a punctuator is spelled by punctuation bytes |
| Grammar.SpelledAsSpelling | compiler/src/codegen.c:40-45 | a token text classifies as an operator exactly when it is that operator's spelling |
| Grammar.Skip | compiler/src/codegen.c:47-54 | the cursor moves on in any case; the error flag is set exactly when the token is not `op` |
| Grammar.EqualityOp | compiler/src/codegen.c:123-133 | `==` gives `ND_EQ` and `!=` gives `ND_NE`, both ways |
| Grammar.RelationalOp | compiler/src/codegen.c:143-161 | `<`, `<=`, `>`, `>=` give `ND_LT`, `ND_LE`, `ND_GT`, `ND_GE`, both ways |
| Grammar.AddOp | compiler/src/codegen.c:102-112 | `+` gives `ND_ADD` and `-` gives `ND_SUB`, both ways |
| Grammar.MulOp | compiler/src/codegen.c:172-182 | `*` gives `ND_MUL` and `/` gives `ND_DIV`, both ways |
| Grammar.ParseExpr | compiler/src/codegen.c:85-87 | the cursor never moves back, an error is never cleared, no node is given back; the tree it reads is stated by `ParserRoundTrip.TreeReads` |
| Grammar.ParseAssign | compiler/src/codegen.c:89-96 | monotone as `expr()` is, for the right-associative assignment; the tree it reads is stated by `ParserRoundTrip.AssignReads` |
| Grammar.ParseEquality | compiler/src/codegen.c:119-137 | monotone as `expr()` is, for the equality level; the tree it reads is stated by `ParserRoundTrip.EqualityReads` |
| Grammar.EqualityLoop | compiler/src/codegen.c:122-136 | monotone as `expr()` is, for the equality `for (;;)` loop; the tree it reads is stated by `ParserRoundTrip.EqualityFold` |
| Grammar.ParseRelational | compiler/src/codegen.c:139-166 | monotone as `expr()` is, for the relational level; the tree it reads is stated by `ParserRoundTrip.RelationalReads` |
| Grammar.RelationalLoop | compiler/src/codegen.c:142-165 | monotone as `expr()` is, for the relational loop; the tree it reads is stated by `ParserRoundTrip.RelationalFold` |
| Grammar.ParseAdd | compiler/src/codegen.c:98-117 | monotone as `expr()` is, for the additive level; the tree it reads is stated by `ParserRoundTrip.AddReads` |
| Grammar.AddLoop | compiler/src/codegen.c:101-116 | monotone as `expr()` is, for the additive loop; the tree it reads is stated by `ParserRoundTrip.AddFold` |
| Grammar.ParseMul | compiler/src/codegen.c:168-186 | monotone as `expr()` is, for the multiplicative level; the tree it reads is stated by `ParserRoundTrip.MulReads` |
| Grammar.MulLoop | compiler/src/codegen.c:171-185 | monotone as `expr()` is, for the multiplicative loop; the tree it reads is stated by `ParserRoundTrip.MulFold` |
| Grammar.ParseUnary | compiler/src/codegen.c:188-200 | monotone as `expr()` is, for unary `+` and `-`; the tree it reads is stated by `ParserRoundTrip.UnaryReads` |
| Grammar.ParsePrimary | compiler/src/codegen.c:202-225 | monotone as `expr()` is, for the primary; the tree it reads is stated by `ParserRoundTrip.PrimaryReads` |
| Grammar.ParseStatement | compiler/src/codegen.c:79-83 | a statement always consumes at least its `;` slot |
| Grammar.StatementLoop | compiler/src/codegen.c:73-76 | statements are only appended; without an error the loop stops at the EOF token; the statements it reads are stated by `ProgramRoundTrip.StatementLoopReads` |
| Grammar.ParseProgram | compiler/src/codegen.c:67-78 | a list is returned exactly when no error was flagged; it is non-empty and ends at EOF; which list it is, is stated by `ProgramRoundTrip.ProgramReads` |
| Grammar.EqualityStep | compiler/src/codegen.c:123-132 | one round of the equality loop builds `new_binary(kind, node, relational())` and goes on |
| Grammar.RelationalStep | compiler/src/codegen.c:143-161 | one round of the relational loop builds `new_binary(kind, node, add())` and goes on |
| Grammar.AddStep | compiler/src/codegen.c:102-112 | one round of the additive loop builds `new_binary(kind, node, mul())` and goes on |
| Grammar.MulStep | compiler/src/codegen.c:172-182 | one round of the multiplicative loop builds `new_binary(kind, node, unary())` and goes on |
| Parsing.Parser.constructor | compiler/src/codegen.c:5-7 | an empty arena, no error, over the lexer's tokens |
| Parsing.Parser.NewNode | compiler/src/codegen.c:9-13 | takes one arena slot; the node has the kind and zero fields |
| Parsing.Parser.NewBinary | compiler/src/codegen.c:15-20 | one slot; the node has kind, `lhs` and `rhs` |
| Parsing.Parser.NewUnary | compiler/src/codegen.c:22-26 | one slot; the node has kind and `lhs` |
| Parsing.Parser.NewNum | compiler/src/codegen.c:28-32 | one slot; an `ND_NUM` node with the value |
| Parsing.Parser.NewVariable | compiler/src/codegen.c:34-38 | one slot; an `ND_VAR` node with the name |
| Parsing.Parser.Equal | compiler/src/codegen.c:40-45 | true exactly when the token is spelled `op` |
| Parsing.Parser.Skip | compiler/src/codegen.c:47-54 | the new state is `Grammar.Skip` of the old |
| Parsing.Parser.Expr | compiler/src/codegen.c:85-87 | node and new state are `ParseExpr` of the old state |
| Parsing.Parser.Assign | compiler/src/codegen.c:89-96 | node and new state are `ParseAssign` of the old state |
| Parsing.Parser.EqualityOperator | compiler/src/codegen.c:123-133 | the chain of `equal` tests gives `EqualityOp` |
| Parsing.Parser.Equality | compiler/src/codegen.c:119-137 | node and new state are `ParseEquality` of the old state |
| Parsing.Parser.EqualityRound | compiler/src/codegen.c:123-132 | one round keeps `EqualityLoop` of the state unchanged and moves the cursor |
| Parsing.Parser.RelationalOperator | compiler/src/codegen.c:143-161 | the chain of `equal` tests gives `RelationalOp` |
| Parsing.Parser.Relational | compiler/src/codegen.c:139-166 | node and new state are `ParseRelational` of the old state |
| Parsing.Parser.RelationalRound | compiler/src/codegen.c:143-161 | one round keeps `RelationalLoop` unchanged and moves the cursor |
| Parsing.Parser.AddOperator | compiler/src/codegen.c:102-112 | the chain of `equal` tests gives `AddOp` |
| Parsing.Parser.Add | compiler/src/codegen.c:98-117 | node and new state are `ParseAdd` of the old state |
| Parsing.Parser.AddRound | compiler/src/codegen.c:102-112 | one round keeps `AddLoop` unchanged and moves the cursor |
| Parsing.Parser.MulOperator | compiler/src/codegen.c:172-182 | the chain of `equal` tests gives `MulOp` |
| Parsing.Parser.Mul | compiler/src/codegen.c:168-186 | node and new state are `ParseMul` of the old state |
| Parsing.Parser.MulRound | compiler/src/codegen.c:172-182 | one round keeps `MulLoop` unchanged and moves the cursor |
| Parsing.Parser.Unary | compiler/src/codegen.c:188-200 | node and new state are `ParseUnary` of the old state |
| Parsing.Parser.Primary | compiler/src/codegen.c:202-225 | node and new state are `ParsePrimary` of the old state |
| Parsing.Parser.NewExpr | compiler/src/codegen.c:79-83 | node and new state are `ParseStatement` of the old state |
| Parsing.Parser.ParseTokens | compiler/src/codegen.c:67-78 | the statement list, or none on error, and the new state are `ParseProgram`, whose list `ProgramRoundTrip.ProgramReads` states |
| ParserProperties.ExprShaped | compiler/src/codegen.c:85-87 | without an error, `expr()` yields an expression tree and allocates exactly its nodes |
| ParserProperties.AssignShaped | compiler/src/codegen.c:89-96 | the same for `assign()` |
| ParserProperties.EqualityShaped | compiler/src/codegen.c:119-137 | the same for `equality()` |
| ParserProperties.EqualityLoopShaped | compiler/src/codegen.c:122-136 | the equality loop extends an expression tree by exactly the nodes it adds |
| ParserProperties.RelationalShaped | compiler/src/codegen.c:139-166 | the same as ExprShaped for `relational()` |
| ParserProperties.RelationalLoopShaped | compiler/src/codegen.c:142-165 | the relational loop extends an expression tree by exactly the nodes it adds |
| ParserProperties.AddShaped | compiler/src/codegen.c:98-117 | the same as ExprShaped for `add()` |
| ParserProperties.AddLoopShaped | compiler/src/codegen.c:101-116 | the additive loop extends an expression tree by exactly the nodes it adds |
| ParserProperties.MulShaped | compiler/src/codegen.c:168-186 | the same as ExprShaped for `mul()` |
| ParserProperties.MulLoopShaped | compiler/src/codegen.c:171-185 | the multiplicative loop extends an expression tree by exactly the nodes it adds |
| ParserProperties.UnaryShaped | compiler/src/codegen.c:188-200 | the same as ExprShaped for `unary()` |
| ParserProperties.PrimaryShaped | compiler/src/codegen.c:202-225 | the same as ExprShaped for `primary()` |
| ParserProperties.StatementShaped | compiler/src/codegen.c:79-83 | without an error, `new_expr()` yields an `ND_EXPR` statement over an expression |
| ParserProperties.StatementsShaped | compiler/src/codegen.c:73-76 | without an error, every statement the loop collects is well formed |
| ParserProperties.ProgramShaped | compiler/src/codegen.c:67-78 | every statement of an accepted program is an `ND_EXPR` over an expression tree |
| Printer.ToNodeIsExpr | compiler/src/codegen.c:9-38 | every printable tree, as `new_num`, `new_variable`, `new_unary` and `new_binary` build it, is an expression node |
| Printer.FromNode | compiler/src/codegen.c:9-38 | every expression node is the node of a printable tree |
| Printer.OpLevelOf | compiler/src/codegen.c:89-186 | the operator of each binary kind is taken by the loop of that kind's precedence level |
| Printer.UnsignedReadsBack | compiler/src/codegen.c:210-214 | the unsigned value of a printed number token converts back to the `int` it was printed from |
| ParserRoundTrip.TreeReads | compiler/src/codegen.c:85-87 | `expr()` reads back a printed tree followed by a lexeme no loop takes: that tree, the cursor just past it, the error flag unchanged and one arena slot per node |
| ParserRoundTrip.ExprReads | compiler/src/codegen.c:85-87 | the same for every expression node the parser builds |
| ProgramRoundTrip.StatementReads | compiler/src/codegen.c:79-83 | `new_expr()` reads a printed tree and its `;` as `ND_EXPR` over that tree, with the cursor past the `;`, the error flag unchanged and one arena slot more than the tree's |
| ProgramRoundTrip.StatementLoopReads | compiler/src/codegen.c:73-76 | with no error so far, the loop appends one `ND_EXPR` per printed `expr ;`, in order, and stops at the EOF token with no error |
| ProgramRoundTrip.ProgramReads | compiler/src/codegen.c:67-78 | a program of one or more printed statements and then EOF is read as the list of their `ND_EXPR` nodes, in order, with no error and one new arena slot per node |
| ParserRoundTrip.AssignReads | compiler/src/codegen.c:89-96 | `assign()` reads a printed tree as that tree when the lexeme after it is no operator |
| ParserRoundTrip.AssignBinaryReads | compiler/src/codegen.c:89-96 | over a printed assignment the target is read by `equality()` and the right side by `assign()` again, so `=` folds to the right |
| ParserRoundTrip.EqualityOpAt | compiler/src/codegen.c:123-133 | the loop of `equality()` takes the operator of every binary kind of its level |
| ParserRoundTrip.EqualityRoundReads | compiler/src/codegen.c:123-133 | one round over an operator and a printed operand makes the tree so far the left child of one new node |
| ParserRoundTrip.EqualityReads | compiler/src/codegen.c:119-137 | `equality()` reads a tree printed for its level and goes on with its loop from that tree |
| ParserRoundTrip.EqualityBinaryReads | compiler/src/codegen.c:119-137 | over a printed operation of its level the left operand is read first by `equality()` itself, so the level folds to the left |
| ParserRoundTrip.EqualityFold | compiler/src/codegen.c:122-136 | the loop folds the right operand into the tree read so far, taking one slot |
| ParserRoundTrip.EqualityStops | compiler/src/codegen.c:119-137 | when the next lexeme is no operator of this level or above, `equality()` returns exactly the printed tree |
| ParserRoundTrip.EqualityLoopEnds | compiler/src/codegen.c:135 | the loop returns its tree at a lexeme it does not take |
| ParserRoundTrip.RelationalOpAt | compiler/src/codegen.c:143-161 | the loop of `relational()` takes the operator of every binary kind of its level |
| ParserRoundTrip.RelationalRoundReads | compiler/src/codegen.c:143-161 | one round over an operator and a printed operand makes the tree so far the left child of one new node |
| ParserRoundTrip.RelationalReads | compiler/src/codegen.c:139-166 | `relational()` reads a tree printed for its level and goes on with its loop from that tree |
| ParserRoundTrip.RelationalBinaryReads | compiler/src/codegen.c:139-166 | over a printed operation of its level the left operand is read first by `relational()` itself, so the level folds to the left |
| ParserRoundTrip.RelationalFold | compiler/src/codegen.c:142-165 | the loop folds the right operand into the tree read so far, taking one slot |
| ParserRoundTrip.RelationalStops | compiler/src/codegen.c:139-166 | when the next lexeme is no operator of this level or above, `relational()` returns exactly the printed tree |
| ParserRoundTrip.RelationalLoopEnds | compiler/src/codegen.c:164 | the loop returns its tree at a lexeme it does not take |
| ParserRoundTrip.AddOpAt | compiler/src/codegen.c:102-112 | the loop of `add()` takes the operator of every binary kind of its level |
| ParserRoundTrip.AddRoundReads | compiler/src/codegen.c:102-112 | one round over an operator and a printed operand makes the tree so far the left child of one new node |
| ParserRoundTrip.AddReads | compiler/src/codegen.c:98-117 | `add()` reads a tree printed for its level and goes on with its loop from that tree |
| ParserRoundTrip.AddBinaryReads | compiler/src/codegen.c:98-117 | over a printed operation of its level the left operand is read first by `add()` itself, so the level folds to the left |
| ParserRoundTrip.AddFold | compiler/src/codegen.c:101-116 | the loop folds the right operand into the tree read so far, taking one slot |
| ParserRoundTrip.AddStops | compiler/src/codegen.c:98-117 | when the next lexeme is no operator of this level or above, `add()` returns exactly the printed tree |
| ParserRoundTrip.AddLoopEnds | compiler/src/codegen.c:115 | the loop returns its tree at a lexeme it does not take |
| ParserRoundTrip.MulOpAt | compiler/src/codegen.c:172-182 | the loop of `mul()` takes the operator of every binary kind of its level |
| ParserRoundTrip.MulRoundReads | compiler/src/codegen.c:172-182 | one round over an operator and a printed operand makes the tree so far the left child of one new node |
| ParserRoundTrip.MulReads | compiler/src/codegen.c:168-186 | `mul()` reads a tree printed for its level and goes on with its loop from that tree |
| ParserRoundTrip.MulBinaryReads | compiler/src/codegen.c:168-186 | over a printed operation of its level the left operand is read first by `mul()` itself, so the level folds to the left |
| ParserRoundTrip.MulFold | compiler/src/codegen.c:171-185 | the loop folds the right operand into the tree read so far, taking one slot |
| ParserRoundTrip.MulStops | compiler/src/codegen.c:168-186 | when the next lexeme is no operator of this level or above, `mul()` returns exactly the printed tree |
| ParserRoundTrip.MulLoopEnds | compiler/src/codegen.c:184 | the loop returns its tree at a lexeme it does not take |
| ParserRoundTrip.UnaryReads | compiler/src/codegen.c:188-200 | `unary()` reads `-` and an operand as one `ND_NEG` node; a number, a variable or a parenthesised tree goes to `primary()` |
| ParserRoundTrip.PlusesIgnored | compiler/src/codegen.c:189-192 | any number of unary `+` add no node and only move the cursor |
| ParserRoundTrip.PrimaryReads | compiler/src/codegen.c:202-225 | `primary()` reads a number, a variable or a parenthesised tree as that tree |
| ParserRoundTrip.AtomReads | compiler/src/codegen.c:210-220 | a number token becomes an `ND_NUM` leaf with its `int` value and an identifier an `ND_VAR` leaf with its first byte, each in one new slot |
| ParserRoundTrip.ParenReads | compiler/src/codegen.c:203-208 | parentheses add no node: the tree inside is read by `expr()` and the `)` is skipped |
| Generator.OffsetByte | compiler/src/codegen.c:259-261 | the byte stored is `mem_offset` truncated to 8 bits |
| Generator.LetterOffsets | compiler/src/codegen.c:259-261 | for `a`-`z` the offset is 4-aligned in 1024..1124; its stored byte is the offset minus 1024, below 128; both are injective |
| Generator.SignedCharSameByte | compiler/src/codegen.c:259-261 | a `char` above 127, read as signed, stores the same byte |
| Generator.NetNoAssign | compiler/src/codegen.c:263-375 | an expression without assignment raises `depth` by exactly one |
| Generator.NetNegAssign | compiler/src/codegen.c:275-314 | negation keeps its operand's depth; an assignment of a one-value operand nets zero |
| Generator.DropRule | compiler/src/codegen.c:381-387 | a statement followed by another statement, with a non-zero depth, is followed by one `drop` and the depth falls by one |
| Generator.EmittedNoAssign | compiler/src/codegen.c:377-390 | without assignments, the depth after the list is 1, and 0 for an empty list |
| Generator.CodeGen.constructor | compiler/src/codegen.c:377-380 | `c`, `n_byte_length` and `depth` as `gen_expr` sets them |
| Generator.CodeGen.Emit | compiler/src/codegen.c:268 | `c[n_byte_length++] = b`: one byte appended |
| Generator.CodeGen.GenNode | compiler/src/codegen.c:265-375 | `_gen_expr` appends `Code(node)`, changes no other byte, and moves `depth` by `Net(node)` |
| Generator.CodeGen.EmitConst | compiler/src/codegen.c:268-269 | appends `i32.const` and the signed encoding of the value |
| Generator.CodeGen.GenNum | compiler/src/codegen.c:267-274 | appends the constant; depth up by one |
| Generator.CodeGen.GenNeg | compiler/src/codegen.c:275-284 | appends the operand's code, `i32.const -1` and `i32.mul`; depth as the operand's |
| Generator.CodeGen.EmitBase | compiler/src/codegen.c:288-289 | appends `i32.const 0` |
| Generator.CodeGen.EmitAccess | compiler/src/codegen.c:292-294 | appends the opcode, alignment 2 and the offset byte |
| Generator.CodeGen.GenVar | compiler/src/codegen.c:285-299 | appends base and load of the variable; depth up by one |
| Generator.CodeGen.GenAssign | compiler/src/codegen.c:300-314 | appends base, right-hand code and store; depth moves by the right side's net minus one |
| Generator.CodeGen.GenBinary | compiler/src/codegen.c:316-369 | appends both operands' code and the opcode; depth by both nets minus one |
| Generator.CodeGen.GenRound | compiler/src/codegen.c:381-387 | one loop round appends the statement's piece and sets the depth `After` it |
| Generator.CodeGen.GenStatements | compiler/src/codegen.c:381-388 | the loop appends `Emitted(stmts).code` and ends at its depth |
| Generator.GenExpr | compiler/src/codegen.c:377-390 | `byte_length` grows by the emitted code, which follows the old bytes; no other byte changes |
| StackMachine.OpcodeMeans | compiler/src/codegen.c:319-369 | each binary kind's opcode computes the operation of its node kind on i32 values |
| StackMachine.DecodeEncoded | compiler/src/codegen.c:265-375 | decoding the encoding of an instruction list gives the list back |
| StackMachine.CodeEncodes | compiler/src/codegen.c:265-375 | the generated bytes are the encoding of `Instrs(e)` |
| StackMachine.ExprExec | compiler/src/codegen.c:265-375 | running `Instrs(e)` pushes the value of `e`, or fails exactly when evaluation fails |
| StackMachine.AssignExec | compiler/src/codegen.c:300-314 | running an assignment stores the value at the variable's byte offset and pushes nothing |
| StackMachine.CodeRuns | compiler/src/codegen.c:265-375 | decoding and running the generated bytes pushes the value of the expression |
| StackMachine.AssignRuns | compiler/src/codegen.c:300-314 | decoding and running an assignment's bytes stores its value |
| StackMachine.EmittedEncodes | compiler/src/codegen.c:381-388 | the bytes of a `Runnable` statement list are the encoding of its instructions, drops included |
| StackMachine.ProgExec | compiler/src/codegen.c:381-388 | running a `Runnable` statement list's instructions gives the reference outcome |
| StackMachine.DepthCounts | compiler/src/codegen.c:263-387 | for a `Runnable` statement list, the generator's final depth is the height of the stack the statements leave |
| StackMachine.ProgramRuns | compiler/src/codegen.c:377-390 | decoding and running the emitted code of a `Runnable` statement list gives the reference outcome, with the depth counted right |
| StackMachine.ReturnsLastValue | compiler/src/codegen.c:381-388 | for assignment-free statements the code leaves exactly the last statement's value |
| StackMachine.InterpPure | compiler/src/codegen.c:381-388 | assignment-free statements keep memory and leave the last value |
| StackMachine.NestedExec | compiler/src/codegen.c:300-314 | an assignment whose right side is an assignment pushes nothing for the inner one, so run from an empty stack the outer store finds too few operands and fails |
| StackMachine.OperandAssignExec | compiler/src/codegen.c:300-369 | a binary operation whose right operand is an assignment fails from an empty stack: the store leaves no value for the operator |
| StackMachine.OperandAssignUnderflows | compiler/src/codegen.c:300-369 | `1+(2=3);`: the depth counter counts no value, and its code fails to run |
| StackMachine.NestedAssignUnderflows | compiler/src/codegen.c:300-314 | `1=2=3;`, the nested assignment the parser accepts (numbers on the left, whose `name` is 0): it lowers the depth to -1 and its code fails to run |
| Assembler.EncodeLeb128Length | compiler/src/main.c:4-8 | the number of bytes the unsigned encoder writes, 1 to 5 |
| Assembler.EncodeLeb128 | compiler/src/main.c:22-31 | writes exactly the unsigned encoding at `at` and changes nothing else |
| Assembler.UnsignedEncoding | compiler/src/main.c:22-31 | continuation bits as the loop sets and clears them; decoding gives the value back |
| Assembler.Atoi | compiler/src/main.c:53-61 | the value of the digit run at `str` with 32-bit `int` wrap-around; 0 when there is none |
| Assembler.AccumulateStep | compiler/src/main.c:56-57 | wrapping after each of `num *= 10` and `num += d` equals wrapping once at the end |
| Assembler.AtoiReadsDecimal | compiler/src/main.c:53-61 | `atoi` reads back the decimal spelling of every non-negative `int` |
| Assembler.AtoiNoDigits | compiler/src/main.c:53-61 | `atoi` of text that does not start with a digit is 0 |
| Assembler.GetIntByteLength | compiler/src/main.c:63-68 | the number of significant bytes of the 32-bit pattern, 1 to 4: the top one non-zero, those above zero |
| Assembler.WasmHeader | compiler/src/main.c:41-51 | writes the magic and version bytes and returns 8 |
| Assembler.Put | compiler/src/main.c:76-101 | a run of constant stores puts the bytes at `p` and changes nothing else |
| Assembler.WriteCodeSection | compiler/src/main.c:104-116 | stores exactly the code section for `n` (`CodeBytes(n)`) at `p`, returns the position after it, changes nothing else |
| Assembler.Compile | compiler/src/main.c:70-119 | the first `36 + |ULeb(n)|` bytes are the module for `(unsigned)atoi(text)`; nothing after them changes |
| Assembler.AssembledBytes | compiler/src/main.c:76-116 | the module is the preamble, then the bytes of the four sections as `compile` stores them |
| Assembler.FixedSectionBytes | compiler/src/main.c:76-101 | the literal bytes of the type, function and export sections are their length-prefixed encodings |
| Assembler.CodeSectionBytes | compiler/src/main.c:108-116 | the code section's size bytes `5 + k` and `3 + k` are its length prefixes |
| Assembler.SectionsRoundTrip | compiler/src/main.c:76-116 | a section list's bytes read back as the list |
| Assembler.CompiledModule | compiler/src/main.c:70-119 | the module starts with the preamble; its sections read back as type, function, export and code, in ascending id order |
| Assembler.UnsignedImmediateMisreads | compiler/src/main.c:113-114 | for 64 to 127 the unsigned immediate decodes as the value minus 128 |
| Assembler.ImmediateAgreesBelow64 | compiler/src/main.c:114 | below 64 the unsigned and signed encodings agree |
| Assembler.CorrectedImmediateReadsBack | compiler/src/main.c:114 | with the signed encoding, the sections still read back and the immediate decodes to the value for every `int` |

## Left out

- Debug output is not modelled. This covers `print`, `print_int`, `print_uint`,
  `print_token_type`, `print_tree`, `vprintf`, `printf`, `error`, `error_at` and
  `error_tok`. Each is a side channel that changes no compiler state.
- `memset` is not modelled as the C loop, which reads an uninitialised `i`. In `tokenize`
  it is `Tokenizer.Lexer.ClearTokens`, a parallel store of zero tokens. In `ParseTokens` it has no
  counterpart, because nodes are values. The arena cursor is not reset there, as in the
  source.
- The commented-out older `compile` at `main.c:121-176` is not modelled.
- The JavaScript glue, `get_mem_addr` and `get_compiled_code` are left out. They hand out
  the buffers, and the buffers are parameters here.
- `strncmp` is declared but never defined in the source, so it is not modelled.
- Grammar.ParseExpr: its own contract states only that it is monotone. Which tree it builds
  is proved by its partners ParserRoundTrip.TreeReads and ParserRoundTrip.ExprReads.
- Grammar.ParseAssign: its own contract states only that it is monotone. Which tree it builds
  is proved by its partners ParserRoundTrip.AssignReads and ParserRoundTrip.AssignBinaryReads.
- Grammar.ParseEquality: its own contract states only that it is monotone. Which tree it builds
  is proved by its partners ParserRoundTrip.EqualityReads and ParserRoundTrip.EqualityStops.
- Grammar.EqualityLoop: its own contract states only that it is monotone. Which tree it builds
  is proved by its partners ParserRoundTrip.EqualityFold and ParserRoundTrip.EqualityLoopEnds.
- Grammar.ParseRelational: its own contract states only that it is monotone. Which tree it builds
  is proved by its partners ParserRoundTrip.RelationalReads and ParserRoundTrip.RelationalStops.
- Grammar.RelationalLoop: its own contract states only that it is monotone. Which tree it builds
  is proved by its partners ParserRoundTrip.RelationalFold and ParserRoundTrip.RelationalLoopEnds.
- Grammar.ParseAdd: its own contract states only that it is monotone. Which tree it builds
  is proved by its partners ParserRoundTrip.AddReads and ParserRoundTrip.AddStops.
- Grammar.AddLoop: its own contract states only that it is monotone. Which tree it builds
  is proved by its partners ParserRoundTrip.AddFold and ParserRoundTrip.AddLoopEnds.
- Grammar.ParseMul: its own contract states only that it is monotone. Which tree it builds
  is proved by its partners ParserRoundTrip.MulReads and ParserRoundTrip.MulStops.
- Grammar.MulLoop: its own contract states only that it is monotone. Which tree it builds
  is proved by its partners ParserRoundTrip.MulFold and ParserRoundTrip.MulLoopEnds.
- Grammar.ParseUnary: its own contract states only that it is monotone. Which tree it builds
  is proved by its partners ParserRoundTrip.UnaryReads and ParserRoundTrip.PlusesIgnored.
- Grammar.ParsePrimary: its own contract states only that it is monotone. Which tree it builds
  is proved by its partners ParserRoundTrip.PrimaryReads, ParserRoundTrip.AtomReads and ParserRoundTrip.ParenReads.
- Tokenizer.Lexer.Tokenize: requires the scan to fit the 512 slots. The C code writes past
  the array, which is undefined behaviour.
- The Parsing.Parser methods require the nodes of the parse to fit the 512-slot arena. The
  C code writes past it.
- The node arena is modelled as a counter of used slots, because nodes are values. Sharing
  and in-place mutation of nodes do not occur in the source.
- A cursor moved past slot 511 reads a zero (EOF) token in the model. In C that read is
  undefined behaviour.
- The generator's `default` branch (`error("invalid expression")`) is excluded by the
  requirement `IsExpr` that every method carries. Every tree the parser accepts meets it
  (ParserProperties.ProgramShaped).
- StackMachine.Step: an unaligned load or store traps, although WebAssembly allows it.
  Memory is a map from addresses to whole words, so unaligned words would overlap. The
  generator emits only aligned offsets (StackMachine.OffsetAligned), so its code never
  reaches this trap.
- StackMachine.ExprExec and StackMachine.CodeRuns are stated for assignment-free trees
  only. An assignment used as an operand pushes no value, so `1+(2=3);` traps
  (StackMachine.OperandAssignUnderflows). The model keeps the source's code for it.
- StackMachine.ProgramRuns is stated for `Runnable` lists only, for the same reason; so are
  StackMachine.EmittedEncodes, StackMachine.ProgExec and StackMachine.DepthCounts.
- `StackMachine.Run` decodes all the code before executing any of it. A real engine
  validates first too, but this order is a choice of the reference semantics.
- The signed overflow of `atoi` is undefined in C. Assembler.Atoi models it as two's
  complement wrap-around.
- `get_int_byte_length` is modelled, but nothing in the source calls it.
- Assembler.Compile: the constant stores of `main.c:76-101` are modelled as three runs of
  `Put`, one per section. The byte values are those of the source.

## Findings

| source | as written | input that shows it | evidently intended | confidence | as-written member | corrected member |
|---|---|---|---|---|---|---|
| compiler/src/main.c:114 | the immediate of `i32.const` is written with the unsigned LEB128 encoder | text `64` gives the code `41 40`, which a signed reader decodes as `i32.const -64`, so `main` returns -64 | the signed LEB128 encoding that `i32.const` requires, so `main` returns the number | not executed | Assembler.UnsignedImmediateMisreads | Assembler.CorrectedImmediateReadsBack |
