# 9cc in Dafny: tokenizer, parser and code generator

9cc is a small C compiler. It reads an arithmetic expression and prints
x86-64 assembly. The code uses the machine as a stack: each node's code
pushes its value. This project models the compiler's three passes twice:

- **The final stage.** `tokenize.c`, `parse.c` and `codegen.c`, with the
  records of `9cc.h`. The grammar has comparisons, equality and unary
  signs, and the code generator also handles local variables and
  assignment.
- **The earlier stage.** `9cc.c` on its own, which knows only `+ - * /`
  and parentheses.

How each pass is modelled:

- **Tokenizer** (`lexer.dfy`, `early_lexer.dfy`). A method with the
  C loop over an index into the input string. Each new token is
  appended to a sequence, as `new_token` appends to the linked list.
  The loop is proved equal to a recursive function `Scan`. About
  `Scan` it is proved what the token sequence is:
  - it is ordered and non-overlapping;
  - every character that is not white space lies in exactly one token;
  - each RESERVED token is a two-character operator, or an operator
    character that does not start one;
  - each NUM token is a maximal run of digits and carries its decimal
    value;
  - one EOF token of length 0 ends the sequence.

  Conversely, whenever a token sequence has all these properties, the
  scan succeeds and returns exactly that sequence. So the tokenization of
  an input is unique, and tokenizing fails exactly when the input has
  none. A failure is at a character that cannot start a token, and it is
  the first such character the loop reaches: a character that cannot
  start a token is passed over only as the `=` ending a pair.
- **Parser** (`grammar.dfy`, `parser.dfy`, `early_parser.dfy`). The
  grammar is a set of functions over a sequence of lexemes. A lexeme is
  what the parser can tell about a token, and a function returns the tree
  and the next position, or the index of the token it fails on. The C
  parser is a class whose `pos` field stands for the global `token`
  cursor. It has one method per C function, each with the C function's
  `for (;;)` loop. Each method is proved to return exactly what its
  level's grammar function returns and to leave the cursor where that
  function says. A failure carries the input offset of the current token,
  the place where `error_at` puts its caret.

  Precedence and associativity are stated through a printer `Show` that
  puts in only the parentheses the grammar needs. For every tree the
  parser can build, parsing its printed form gives back that tree. So
  every operator is left-associative, `*` `/` bind tighter than `+` `-`,
  and those bind tighter than the comparisons, which bind tighter than
  `==` `!=`.
- **Code generator** (`machine.dfy`, `codegen.dfy`, `early_codegen.dfy`).
  A function from a tree to a sequence of abstract x86 instructions, and a
  small-step interpreter for those instructions. It is proved that
  running a tree's code from any machine does one of two things:
  - it pushes exactly the tree's value, never pops below the stack it
    started with, and leaves memory as evaluating the tree leaves it;
  - or it faults exactly where evaluating the tree fails.

  Evaluation uses C's truncating division and 0/1 comparisons, reads
  variables at `rbp - offset`, and stores into them.

The final parser only builds trees without variables. The earlier stage's
code is proved to be the final stage's code for the same tree. The final
`pop rax` of `main` is proved to leave the expression's value in `rax`.

Integers are mathematical integers throughout (see "Left out").

9cc.h declares identifiers, LVar, program() and stmts, but no modelled file
implements them; the model follows the code:
- The code's tokenizer has no identifiers, `=` or `;`.
- The code's parser has no statements or assignment.
- `expr` does not require the EOF after the expression: trailing tokens
  are left unconsumed.

## Model

| member | source | states |
|---|---|---|
| Lexer.StartsWith | tokenize.c:13-15 | starts_with(p, q) holds exactly when q is no longer than p and is the prefix of p of its length |
| Lexer.TwoCharOpMatch | tokenize.c:43-47 | the four starts_with tests hold exactly when "==", "!=", ">=" or "<=" starts at i, and the two characters there are then that operator, so the pair is taken before any single character |
| Lexer.DigitRun | tokenize.c:54-59 | the run from i is all digits, stays in the input and is maximal (it ends the input or a non-digit follows) |
| Lexer.StrToL | tokenize.c:57-58 | strtol stops just past the maximal digit run and returns that run's decimal value |
| Lexer.Tokenize | tokenize.c:32-67 | the loop (whitespace skipped, the two-character operators tried first, one token per operator character, strtol for digit runs, an error at any other character, each token appended as new_token does, EOF last) returns exactly Scan(s, 0); on success that is a tokenization of s, on failure the index is a character that cannot start a token |
| Lexer.ScanSound | tokenize.c:37-66 | a successful scan is a tokenization: one EOF of length 0 at the end of the input and no other EOF; every other token lies in the input and is a two-character operator, a one-character operator not starting one, or a maximal digit run with its value; tokens are ordered and do not overlap; every non-whitespace character lies in a token |
| Lexer.ScanFailure | tokenize.c:37-62 | a failed scan fails at a character that is not whitespace, does not start a two-character operator, and is neither an operator character nor a digit; every such character before it was passed over only as the '=' ending a pair that starts just before it |
| Lexer.ScanStopsBy | tokenize.c:37-62 | the scan fails at a character that cannot start a token, or earlier, unless that character is the '=' of a pair starting just before it |
| Lexer.ScanFailsAt | tokenize.c:37-62 | when every character before k is accepted and the one at k cannot start a token (and ends no pair the scan meets), the scan fails exactly at k, the first character the loop cannot take |
| Lexer.FailsAfterPair | tokenize.c:43-62 | "<=a" fails at the letter (index 2), not at the '=' that ends the pair "<=" |
| Lexer.Scan | tokenize.c:37-66 | the reference definition of the loop, branch for branch in the C order: white space, the four pairs, one operator character, a digit run, else a failure at that index; what it yields is stated by ScanSound, ScanComplete and ScanFailure |
| Lexer.ScanSucceeds | tokenize.c:37-63 | a sufficient condition: an input tokenizes when every character is white space, a digit, an operator character of + - * / ( ) < > that does not start a pair, or part of a pair "==", "!=", "<=" or ">=" that the scan meets (it starts after a character other than = ! < >); the exact condition is ScanIffTokenization |
| Lexer.ScanComplete | tokenize.c:37-66 | whenever a token sequence is a tokenization of the input (the properties ScanSound lists), the scan succeeds and returns exactly that sequence |
| Lexer.ScanIffTokenization | tokenize.c:37-66 | tokenizing succeeds exactly when the input has a tokenization, and then returns it, so the tokenization is unique |
| Lexer.LessEqualNotSplit | tokenize.c:43-52 | "1<=2" tokenizes to NUM 1, one RESERVED "<=" of length 2, NUM 2 and EOF: the pair is not split into "<" and "=" |
| Lexer.TokenChars | tokenize.c:43-59 | a token's characters are digits (all of them in a NUM) or operator characters; a '!' or a leading '=' only ever starts a two-character operator |
| Lexer.ForeignCharFails | tokenize.c:62 | a letter or any other character outside the tokenizer's alphabet makes tokenizing fail there or earlier, and exactly there when every character before it is accepted |
| Lexer.LoneBangFails | tokenize.c:43-62 | a '!' not followed by '=' makes tokenizing fail there or earlier, and exactly there when every character before it is accepted |
| Lexer.LoneEqualsFails | tokenize.c:43-62 | a '=' that is not part of "==", "!=", "<=" or ">=" makes tokenizing fail there or earlier, and exactly there when every character before it is accepted |
| TokenView.TokenizationReady | tokenize.c:65-66 | the tokenizer's output suits the parser: each token's text lies in the input, the last token is EOF, every RESERVED token has a first character |
| Ast.ArithTree | 9cc.c:108-123 | the earlier stage's node kinds are a subset of those the final parser builds |
| Ast.EvalWritesOnlyTargets | codegen.c:36-44 | evaluating a tree writes the assignment targets and no other memory cell |
| Ast.AssignStoresValue | codegen.c:36-44 | an assignment's value is its right side's value, and the target cell holds it afterwards |
| Ast.ParserTreeKeepsMemory | parse.c:33-46 | a tree made of new_binary_node and new_num_node nodes never changes memory |
| IntOps.TruncDivision | codegen.c:63-66 | cqo; idiv: quotient and remainder recombine to the dividend, the remainder is smaller than the divisor and takes the dividend's sign, the quotient is rounded toward zero |
| Grammar.PExpr | parse.c:150-152 | expr, when it succeeds, consumes at least one token, stops before the EOF and builds only ADD ... NEQ and NUM nodes; a failure lies between the start and the EOF |
| Grammar.PPrimary | parse.c:49-56 | primary, when it succeeds, moves the cursor strictly forward, stays before the EOF and builds only parser nodes; a failure lies between its start and the EOF |
| Grammar.PUnary | parse.c:59-69 | unary, sign or no sign, moves the cursor strictly forward and builds only parser nodes (SUB(NUM 0, x) for a minus); a failure lies before the EOF |
| Grammar.PLevel | parse.c:72-143 | mul, add, relational and equality each move the cursor strictly forward, stay before the EOF and build only ADD ... NEQ and NUM nodes |
| Grammar.PLoop | parse.c:75-85 | the for (;;) loop of a level never moves the cursor back and only builds parser nodes |
| Grammar.LevelOp | parse.c:76-141 | the operator a level's consume_reserved chain takes from a token: only an operator token, only at the four binary levels, and with operands swapped exactly for ">" and ">=" |
| Grammar.OpTextLevel | parse.c:72-143 | each operator's text is consumed by its own level's loop alone, without swapping |
| Grammar.ParseShown | parse.c:72-152 | the minimally parenthesized printing of a tree parses at any level it fits under back to that tree, stopping right after it |
| Grammar.RoundTrip | parse.c:72-152 | every tree the parser can build is what expr parses the tree's printing to, whatever follows, as long as the next token ends every loop: precedence is mul over add over relational over equality and every level is left-associative |
| Grammar.RoundTripToEnd | parse.c:149-152 | a whole input that is a printed tree parses to that tree with the cursor on the EOF |
| Grammar.SubAssociatesLeft | parse.c:89-103 | 1-2-3 parses to SUB(SUB(1, 2), 3) |
| Grammar.MulBindsTighter | parse.c:72-103 | 1+2*3 parses to ADD(1, MUL(2, 3)) |
| Grammar.RelationalBindsTighter | parse.c:106-143 | 1<2==1 parses to EQ(LT(1, 2), 1) |
| Grammar.GreaterSwaps | parse.c:113-121 | a > b parses to LT(b, a) and a >= b to LTE(b, a) |
| Grammar.RelationalTurn | parse.c:106-126 | one comparison between two additive operands builds that comparison's node, operands swapped for ">" and ">=" |
| Grammar.UnarySigns | parse.c:59-69 | -x parses to SUB(NUM 0, x) and +x to x |
| Grammar.DoubleSignFails | parse.c:59-69 | a second sign ("- - 1") fails where a number is expected, at the second sign |
| Parser.Parser.constructor | main.c:11-13 | the cursor starts on the first token of the tokenizer's output |
| Parser.Parser.ConsumeReserved | parse.c:5-15 | returns true and moves the cursor by exactly one token iff the current token is RESERVED with text exactly op in length and characters (so "<" does not match "<="); otherwise false with the cursor unchanged |
| Parser.Parser.ExpectReserved | parse.c:19-22 | moves by one iff the current token is RESERVED and its first character is op; otherwise fails at the token's offset with the cursor unchanged |
| Parser.Parser.ExpectNumber | parse.c:26-31 | on a NUM returns its value and moves by one; on any other token, EOF included, fails at its offset |
| Parser.Parser.AtEnd | parse.c:145-147 | true exactly when the cursor is on the EOF |
| Parser.Parser.Primary | parse.c:48-56 | returns what PPrimary says, with the cursor where it says, or fails at the offset of the token PPrimary fails on |
| Parser.Parser.Unary | parse.c:58-69 | returns what PUnary says, with the cursor where it says |
| Parser.Parser.MulOperator | parse.c:76-84 | the consume_reserved chain "*", "/" consumes the token and names the operator exactly when it is one of mul's operators |
| Parser.Parser.Mul | parse.c:71-86 | the loop returns what mul's grammar level says, with the cursor where it says |
| Parser.Parser.AddOperator | parse.c:93-101 | the chain "+", "-" consumes the token and names the operator exactly when it is one of add's operators |
| Parser.Parser.Add | parse.c:88-103 | the loop returns what add's grammar level says |
| Parser.Parser.RelationalOperator | parse.c:110-124 | the chain "<=", ">=", "<", ">" consumes the token and names the operator, and whether operands swap, exactly when it is a comparison |
| Parser.Parser.Relational | parse.c:105-126 | the loop returns what relational's grammar level says |
| Parser.Parser.EqualityOperator | parse.c:133-141 | the chain "==", "!=" consumes the token and names the operator exactly when it is one of equality's operators |
| Parser.Parser.Equality | parse.c:128-143 | the loop returns what equality's grammar level says |
| Parser.Parser.Expr | parse.c:149-152 | expr returns what PExpr says, leaving any tokens after the expression unconsumed |
| StackMachine.Pop | codegen.c:50-51 | a pop succeeds exactly when the stack is above the floor and removes the top value |
| StackMachine.LowByteOfSet | codegen.c:67-86 | set* writes its 0 or 1 into the low byte of rax |
| StackMachine.RunAppend | codegen.c:24-92 | running code printed one piece after the other is running the first piece, then the second from where it stopped |
| CodeGen.GenLval | codegen.c:4-12 | gen_lval succeeds exactly on an LVAR |
| CodeGen.Gen | codegen.c:24-92 | gen succeeds exactly when every assignment stores into a variable |
| CodeGen.OpCode | codegen.c:53-89 | the instructions of each operator work on registers and flags only, touching neither the stack nor memory; what they compute is OpCodeComputes |
| CodeGen.Epilogue | codegen.c:50-91 | after both operands' code: pop rdi (the right value), pop rax (the left), the operator's register-only instructions, push rax |
| CodeGen.GenLvalPushesAddress | codegen.c:9-11 | gen_lval's code pushes rbp - offset (left in rax too) and changes nothing else |
| CodeGen.OpCodeComputes | codegen.c:53-89 | each operator's instructions leave left op right in rax (rax the left value, rdi the right), or fault on a zero divisor, with stack and memory untouched |
| CodeGen.DivCodeComputes | codegen.c:63-66 | cqo and idiv rdi leave the quotient rounded toward zero in rax, or fault when rdi is zero |
| CodeGen.CompareCodeComputes | codegen.c:67-86 | each comparison's three instructions leave the comparison's 1 or 0 in rax, touching neither stack nor memory |
| CodeGen.CompareThenTest | codegen.c:67-86 | cmp rax, rdi with setl, setle, sete or setne and movzb leave 1 in rax when rax <, <=, == or != rdi holds and 0 otherwise, touching neither stack nor memory |
| CodeGen.EpilogueComputes | codegen.c:50-91 | with the left value under the right one, pop rdi, pop rax, the operator and push rax replace the two by the operator's result |
| CodeGen.StoreTail | codegen.c:40-43 | with the address under the value, the assignment's tail stores the value there and leaves it alone on the stack |
| CodeGen.GenAssignCorrect | codegen.c:36-44 | an ASSIGN's code pushes the assigned value and stores it at rbp - offset, changing no other cell, or faults as the right side does |
| CodeGen.GenBinaryCorrect | codegen.c:47-91 | a binary node's code pushes the left value, then the right, and combines them into the node's value |
| CodeGen.GenCorrect | codegen.c:24-92 | running gen(n) from any stack S never pops below S and either ends with S plus exactly the value of n and the memory evaluation leaves, or faults exactly as evaluation fails (division by zero, load from an unmapped address) |
| CodeGen.MainLeavesResultInRax | main.c:19-20 | after gen and pop rax, rax holds the expression's value and the stack is back to its starting depth |
| CodeGen.PopLeavesTop | main.c:20 | pop rax moves the top of the stack into rax and removes it |
| EarlyLexer.ScanSucceedsIff | 9cc.c:56-74 | tokenizing succeeds exactly when every character is whitespace, a digit or one of + - * / ( ); otherwise it fails at the first other character |
| EarlyLexer.ComparisonFails | 9cc.c:62-73 | any of = ! < > in the input makes tokenizing fail |
| EarlyLexer.FinalStageExtends | 9cc.c:51-78 | on inputs without = ! < >, the earlier tokenizer yields the final one's tokens with lengths dropped, or fails at the same place |
| EarlyLexer.PunctExtends | 9cc.c:62-65 | a one-character operator gives the same token in both stages once the rest of the input does |
| EarlyLexer.NumberExtends | 9cc.c:67-71 | a digit run gives the same NUM token and value in both stages once the rest of the input does |
| EarlyLexer.Scan | 9cc.c:56-77 | the reference definition of the earlier loop: white space, one of + - * / ( ), a digit run, else a failure at that index; what it yields is stated by ScanSucceedsIff and ScanSound |
| EarlyLexer.ScanSound | 9cc.c:56-77 | every successful scan is a tokenization in the final stage's sense: one-character operators, maximal digit runs with their values, EOF at the end |
| EarlyLexer.Tokenize | 9cc.c:41-78 | the loop, appending each token, returns exactly Scan(s, 0); a failure is at a character outside the alphabet |
| EarlyParser.ScanReady | 9cc.c:76-77 | the tokenizer's output suits the parser and its view ends with the EOF |
| EarlyParser.ForgottenReady | 9cc.c:76-77 | a token list that ends with the EOF at the end of the input and is well formed before it suits the parser once lengths are dropped |
| EarlyGrammar.EExpr | 9cc.c:170-184 | expr moves the cursor strictly forward, stops before the EOF and builds only ADD, SUB, MUL, DIV and NUM nodes |
| EarlyGrammar.EPrimary | 9cc.c:142-150 | primary, when it succeeds, moves strictly forward, stays before the EOF and builds only arithmetic nodes |
| EarlyGrammar.ELevel | 9cc.c:152-184 | mul and expr each move strictly forward, stay before the EOF and build only arithmetic nodes |
| EarlyGrammar.ELoop | 9cc.c:156-166 | the for (;;) loop never moves the cursor back and only builds arithmetic nodes |
| EarlyGrammar.EParseShown | 9cc.c:143-184 | the printing of an arithmetic tree parses at any level it fits under back to that tree |
| EarlyGrammar.EarlyRoundTrip | 9cc.c:143-184 | every arithmetic tree is what expr parses its printing to: * and / bind tighter than + and -, all left-associative |
| EarlyGrammar.LeadingSignFails | 9cc.c:143-150 | without a unary rule a leading "-" or "+" fails where a number was expected |
| EarlyParser.Parser.constructor | 9cc.c:225-226 | the cursor starts on the first token of the tokenizer's output |
| EarlyParser.Parser.ConsumeReserved | 9cc.c:82-86 | returns true and moves by one iff the current token is RESERVED and its first character is op; otherwise false, cursor unchanged |
| EarlyParser.Parser.ExpectReserved | 9cc.c:90-93 | moves by one iff the current token is RESERVED with first character op; otherwise fails at its offset |
| EarlyParser.Parser.ExpectNumber | 9cc.c:97-102 | on a NUM returns its value and moves by one; otherwise fails at its offset |
| EarlyParser.Parser.AtEnd | 9cc.c:104-106 | true exactly when the cursor is on the EOF |
| EarlyParser.Parser.Primary | 9cc.c:142-150 | returns what EPrimary says, with the cursor where it says |
| EarlyParser.Parser.MulOperator | 9cc.c:157-162 | the chain '*', '/' consumes the token and names the operator exactly when it is one of mul's operators |
| EarlyParser.Parser.Mul | 9cc.c:152-167 | the loop returns what mul's level says |
| EarlyParser.Parser.ExprOperator | 9cc.c:174-179 | the chain '+', '-' consumes the token and names the operator exactly when it is one of expr's operators |
| EarlyParser.Parser.Expr | 9cc.c:169-184 | the loop returns what expr's level says |
| EarlyCodeGen.Gen | 9cc.c:186-217 | the earlier gen emits exactly the final gen's code for the same tree |
| EarlyCodeGen.OnlyDivisionFails | 9cc.c:208-211 | an arithmetic tree's evaluation can fail only by dividing by zero |
| EarlyCodeGen.GenCorrect | 9cc.c:186-217 | from any stack the code pushes exactly the tree's value, leaves memory alone, and can fault only on a zero divisor |
| EarlyCodeGen.MainLeavesResultInRax | 9cc.c:232-234 | after gen and pop rax, rax holds the value and the stack is back to its starting depth |

## Left out

- error_at and error (tokenize.c:17-29, codegen.c:14-21, 9cc.c:27-39): printing to stderr and exiting become a `Failure` that carries the input offset (or the code generator's error); the caret and the message text are not modelled.
- "not %s" in expect_reserved (parse.c:20, 9cc.c:91) is a format without its argument; only the failure is modelled.
- main.c and the driver of 9cc.c: the argc check (which does not even stop on a missing argument), the header directives and `ret` are I/O glue; only the final `pop rax` is modelled.
- new_token, new_binary_node and new_num_node: calloc and the linked `next` pointers become appending to a sequence and the constructors of the `Node` datatype; aliasing and allocation are not modelled.
- Integer widths: `int` and the registers are mathematical integers, so strtol overflow, 32-bit truncation of `val`, 64-bit wrap-around of add/sub/imul and the idiv trap on INT_MIN / -1 are not modelled; division by zero is modelled as a fault.
- The machine keeps the stack and memory apart: `stack` is a sequence and `mem` a map, so a push can never overwrite a variable's cell at rbp - offset, as it could on x86 if the frame were too small.
- Load (`mov rax, [rax]`) faults with BadAddress on an address that holds no value; x86 reads whatever the cell holds. GenCorrect's faults on unmapped addresses are faults of this memory model, not of the hardware.
- IdivRdi: idiv divides rax alone and faults with WideDividend when rdx is not rax's sign (what cqo puts there); x86 divides the 128-bit rdx:rax instead. The generated code always runs cqo first, so only that case is exercised, and a gen without cqo would fail DivCodeComputes.
- isspace and isdigit are fixed to the C locale's ASCII sets.
- The assembly text: instructions are an abstract datatype, and `printf` output is the returned instruction sequence.
- TK_IDENT, struct LVar, program() and stmts (9cc.h:15, 61-74): declared but implemented by no modelled file; the tokenizer never yields identifiers and the parser never builds LVAR or ASSIGN, so those nodes reach the code generator only as given trees.
- Embedded NUL characters: the input is the contents of a C string, where a NUL would end the loop early; the model's strings have none by assumption of the caller.
