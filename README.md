# Proof-Tables: the formula language and the proof-step validator

Proof-Tables is a small web application for natural-deduction proofs in propositional logic.
The user types a goal formula such as `A or B -> A or B`. The text is lexed (`lexFOL`) and
parsed (`parseFOL`) into a formula tree (`ASTNode`). The tree is shown as a proof table: a
context of hypotheses and a goal. The user then applies rules (`ImplIntro`, `OrIntro1`,
`OrIntro2`, `AndIntro`, `AndElim i`, `OrElim i`, `Assumption i`). Each rule application
(`validateAndGetNext`) returns the child tables still to be proved, the closed mark
(`endmark`), or nothing when the rule does not apply.

This project models that logical core, all of it in `src/App.tsx`, as pure Dafny functions
and proves what the code promises:

- `results.dfy` (`Results`): the `Result` type. A thrown `EvalError` becomes `Fail`.
- `text.dfy` (`Text`):
  - the character classes;
  - JavaScript's `Number(lexeme)` on the lexemes the lexer produces;
  - `toString()` on a numeric payload.
  - A payload is an exact natural number or NaN.
- `formulas.dfy` (`Formulas`): the tree, `ASTequals` (with `===` on payloads) and `ASTtoString`.
- `lexer.dfy` (`Lexer`):
  - the tokens, `lexID`, `lexNum` and `lexFOL`;
  - an exact characterisation of the texts the lexer accepts;
  - how lexing composes over a space;
  - a printing function `Unlex` whose output lexing inverts.
- `parser.dfy` (`Parser`):
  - `parseSimple`, the precedence climber `parsePrec` and `parseFOL`;
  - an exact characterisation of the token sequences accepted;
  - the unique tree returned for each of them.
- `validator.dfy` (`Validator`):
  - `validateAndGetNext`;
  - a truth-table semantics, against which every accepted step is sound;
  - every rule except the two `or` introductions is also invertible.
- `frontend.dfy` (`Frontend`): `getFOLAST` (lex, then parse) and the round trips through `ASTtoString`.

The source consumes its input arrays with `shift()` and pushes an element back with a spread.
The model passes the remaining sequence explicitly and returns the unconsumed suffix. The
consumed prefix and the returned suffix together are exactly the input.

Behaviour of the code that the model keeps, where an informal reading of the language might expect otherwise:

- Numerals.
  - After the first digit, `lexNum` takes a second digit and then hands over to `lexID`. So a
    numeral of two or more digits runs on through the letters and digits that follow.
  - `12x` is a single constant, and `Number("12x")` is NaN.
  - `12e3` is the constant 12000, because `Number` reads exponent notation.
  - `1x` is the constant 1 followed by the identifier `x`.
  - A reading in which numerals are only runs of digits does not match the code. The model
    follows the code.
- `iff` is not a reserved word, so it lexes as an identifier. The `IFF` token is never produced.
- Only the space character is white space.
- `ASTequals` compares payloads with `===`, so a NaN constant is equal to nothing, itself included.
- `ASTtoString` prints no parentheses.
  - Printing and re-reading a tree whose tokens are all printable gives the same tree exactly
    when the tree has the shape the parser builds. A name that is a reserved word, empty or
    contains a space does not read back as one identifier.
  - A NaN constant prints as `NaN`, which reads back as an identifier.

## Model

| member | source | states |
|---|---|---|
| Text.NatToString | src/App.tsx:45 | `toString()` of a payload: a non-empty digit string, with no leading zero, whose decimal value is the number |
| Text.IsWhiteSpace | src/App.tsx:133-135 | white space is the space character alone |
| Text.IsAlpha | src/App.tsx:137-139 | letters are ASCII `a`-`z` and `A`-`Z` only |
| Text.IsNumeric | src/App.tsx:141-143 | digits are ASCII `0`-`9` only |
| Text.IsAlphaNumeric | src/App.tsx:145-147 | a letter or a digit |
| Text.CharClasses | src/App.tsx:133-147 | the letters are exactly the 52 listed, the digits exactly the 10 listed, nothing else is alphanumeric, no character is both a letter and a digit, and white space is none of these nor `(`, `)`, `-`, `:`, `>`, and not a tab or line break |
| Text.NumberOf | src/App.tsx:198 | `Number(lexeme)` on the lexemes `lexNum` produces (one digit, or two digits and then letters and digits, so never a `0x`, `0b` or `0o` prefix): the result is a number exactly when the lexeme is all digits or is digits, `e`/`E`, digits; its value is then the decimal value, or the mantissa times ten to the exponent; every other lexeme, in particular one with a letter other than `e`/`E`, gives NaN |
| Formulas.StrictEquals | src/App.tsx:63 | `===` on payloads holds exactly between two equal numbers, so never when either side is NaN |
| Formulas.AstEquals | src/App.tsx:53-69 | `ASTequals` holds exactly when the two trees are identical and contain no NaN constant |
| Formulas.AstEqualsLaws | src/App.tsx:53-69 | `ASTequals` is symmetric and transitive, reflexive exactly on NaN-free trees, and false whenever the node tags differ |
| Formulas.NaNIsNotEqual | src/App.tsx:62-63 | a NaN constant is `ASTequals` to nothing, on either side |
| Lexer.ClassifyWord | src/App.tsx:183-195 | the reserved-word tests agree with the keyword table (`and`, `or`, `not`, `forall`, `exists`); a word never becomes `IFF`, and becomes an ID only when not reserved |
| Lexer.LexId | src/App.tsx:149-154 | `lexID` returns a suffix of its input; the consumed prefix is all letters and digits and is appended to the current text; the suffix does not start with a letter or digit |
| Lexer.LexNum | src/App.tsx:156-161 | `lexNum` consumes nothing exactly when the input is empty or starts with a non-digit; otherwise it takes that digit and the maximal run of letters and digits after it |
| Lexer.Lex | src/App.tsx:163-202 | every token `lexFOL` emits is one it can emit: never `IFF`, and IDs only for non-reserved words |
| Lexer.LexSucceedsIff | src/App.tsx:163-202 | `lexFOL` succeeds exactly when every character is a letter, a digit, a space, `(`, `)`, `:`, a `-` immediately followed by `>`, or that `>` |
| Lexer.LexRejects | src/App.tsx:167-173 | a `-` at the end or before a space, and a `&`, make lexing throw |
| Lexer.LexSpaceStep | src/App.tsx:199 | a space emits no token |
| Lexer.LexAppend | src/App.tsx:163-202 | tokens come out in input order: a text followed by a space and more text lexes to the first part's tokens then the rest's, and fails if either part fails |
| Lexer.LexWord | src/App.tsx:180-195 | a maximal word followed by a non-alphanumeric character (or nothing) becomes its reserved-word token or an ID carrying the word |
| Lexer.LexNumRun | src/App.tsx:156-161 | after the first digit, `lexNum` takes exactly the rest of a numeral lexeme that is one digit not followed by a digit, or two digits and letters/digits up to a non-alphanumeric character |
| Lexer.LexNumeral | src/App.tsx:196-198 | such a lexeme at the front of the text emits one constant whose payload is `Number(lexeme)` |
| Lexer.LoneNumeral | src/App.tsx:196-198 | a numeral lexeme (one digit, or two digits and then letters and digits) standing alone lexes to one constant whose payload is `Number(lexeme)` |
| Lexer.IffIsAnIdentifier | src/App.tsx:183-195 | `iff` lexes to `ID("iff")` |
| Lexer.NumeralRunsThroughLetters | src/App.tsx:156-161 | `12x` lexes to the single constant NaN |
| Lexer.SingleDigitNumeral | src/App.tsx:156-161 | `1x` lexes to the constant 1 and then `ID("x")` |
| Lexer.NumeralThenWord | src/App.tsx:156-161 | one digit directly followed by a word lexes to the digit's constant and the word's token |
| Lexer.ExponentNumeral | src/App.tsx:198 | `12e3` lexes to the constant 12000 |
| Lexer.LexWordText | src/App.tsx:180-195 | a word on its own lexes to exactly its token |
| Lexer.LexNumberText | src/App.tsx:196-198 | the decimal text of a number lexes to exactly that constant |
| Lexer.LexTokenText | src/App.tsx:163-202 | every token the lexer emits, other than a NaN constant, is what its own text lexes to |
| Lexer.LexUnlex | src/App.tsx:163-202 | lexing the space-separated texts of such tokens gives the tokens back |
| Parser.ParseSimple | src/App.tsx:205-214 | `parseSimple` succeeds exactly on a leading ID or CONST, returns that atom and the tokens after it |
| Parser.LeftPower | src/App.tsx:223-228 | left powers: `and`/`or` 10, `->` 5; every operator is above the starting power 0, and `->` alone is below `and`/`or` |
| Parser.RightPower | src/App.tsx:223-228 | right powers: `and`/`or` 11, above every left power, so their right operand is a single atom (left-nested); `->` 4, below every left power, so its right operand takes every operator (right-nested) |
| Parser.Combine | src/App.tsx:238 | the node built for an operator has the operator's tokens between those of its children |
| Parser.ParsePrec | src/App.tsx:217-240 | `parsePrec` returns no more tokens than given, and stops only at the end, before a non-operator, or before an operator of left power below `p` |
| Parser.PrecHigh | src/App.tsx:234-235 | above power 10 `parsePrec` consumes nothing, so the right operand of `and`/`or` is always one atom |
| Parser.PrecFlatten | src/App.tsx:217-240 | the tokens `parsePrec` consumes are exactly those it adds to the tree, in order |
| Parser.Parse | src/App.tsx:204-251 | the in-order traversal of the tree `parseFOL` returns is the token sequence |
| Parser.FlattenWellFormed | src/App.tsx:204-251 | the in-order tokens of every tree alternate atom and operator |
| Parser.PrecTotal | src/App.tsx:217-240 | on operator-atom pairs `parsePrec` never throws and leaves operator-atom pairs |
| Parser.ParseSucceedsIff | src/App.tsx:204-251 | `parseFOL` succeeds exactly on sequences atom (op atom)*, with ID/CONST atoms and `and`/`or`/`->` operators |
| Parser.PrecShape | src/App.tsx:217-240 | at the powers used below `and`/`or`, `parsePrec` builds a chain of segments and stops before no operator |
| Parser.ParseShape | src/App.tsx:204-251 | every tree `parseFOL` returns is a chain: `->` nodes nested to the right over `and`/`or` segments whose right children are atoms |
| Parser.SegUnique | src/App.tsx:223-226 | a left-nested `and`/`or` segment is determined by its tokens |
| Parser.ChainUnique | src/App.tsx:227-228 | a chain is determined by its tokens |
| Parser.ParseCharacterization | src/App.tsx:204-251 | `parseFOL` returns `f` exactly when `f` is a chain whose in-order tokens are the input |
| Parser.ChainParses | src/App.tsx:204-251 | a chain is what its own tokens parse to |
| Parser.ImpliesNestsRight | src/App.tsx:227-228 | `A -> B -> C` parses to `Implies(A, Implies(B, C))` |
| Parser.AndOrNestLeft | src/App.tsx:223-226 | `A and B or C` parses to `Or(And(A, B), C)` |
| Parser.OrBindsTighter | src/App.tsx:223-238 | `A or B -> A or B` parses to `Implies(Or(A, B), Or(A, B))` |
| Parser.ParseRejects | src/App.tsx:204-251 | no tokens, two atoms in a row, a trailing operator and a leading `not` all throw |
| Validator.Step | src/App.tsx:97-131 | `validateAndGetNext` returns no table exactly when the rule does not apply, and otherwise 2 tables for `AndIntro`/`OrElim` and 1 for the rest; `endmark` maps to `[endmark]`; the exact children of each applicable rule: `ImplIntro` assumes the antecedent and proves the consequent, `OrIntro1`/`OrIntro2` keep the left/right disjunct, `AndIntro` gives the left then the right conjunct, `AndElim i` appends both conjuncts of hypothesis `i` in order, `OrElim i` gives a table with the left disjunct appended then one with the right, `Assumption i` gives `[endmark]`; every child keeps the parent's context as a prefix, elimination rules keep the goal and introduction rules replace it by a proper part |
| Validator.Weaken | src/App.tsx:113-123 | extending the context keeps every consequence |
| Validator.StepSound | src/App.tsx:97-131 | an accepted step whose child tables are all discharged (closed, or context entails goal) has a discharged parent |
| Validator.StepInvertible | src/App.tsx:102-127 | for every rule but `OrIntro1`/`OrIntro2`, a discharged table has only discharged children |
| Validator.OrIntroMayLose | src/App.tsx:104-107 | `OrIntro1` can turn the valid goal `A or (A -> A)` into the invalid goal `A` |
| Validator.ImplIntroExample | src/App.tsx:102-103 | `ImplIntro` on `A -> B` gives the single table with context `[A]` and goal `B` |
| Validator.AndElimExample | src/App.tsx:113-116 | `AndElim 0` on hypothesis `A and B` appends `A` and `B`; an index out of range gives no table |
| Validator.AssumptionExample | src/App.tsx:124-127 | a hypothesis equal to the goal closes the table; an unequal one, or a NaN constant, gives no table |
| Frontend.GetFolAst | src/App.tsx:347-352 | when `getFOLAST` succeeds the text lexed, and the tree's in-order tokens are the lexed tokens |
| Frontend.GetFolAstCharacterization | src/App.tsx:347-352 | `getFOLAST` succeeds exactly when the text is lexable and its tokens alternate atom and operator, and returns `f` exactly when the text lexes to `f`'s tokens and `f` is a chain |
| Frontend.RenderIsUnlex | src/App.tsx:37-51 | `ASTtoString` prints the tree's in-order tokens separated by single spaces |
| Frontend.NoNaNTokens | src/App.tsx:37-51 | a tree has no NaN constant exactly when none of its tokens is a NaN constant |
| Frontend.LexRender | src/App.tsx:37-51 | the printed text of a tree with printable tokens lexes to the tree's in-order tokens |
| Frontend.RenderRoundTrip | src/App.tsx:37-51 | such a printed tree always parses, and parses back to itself exactly when it is a chain |
| Frontend.TextRoundTrip | src/App.tsx:347-352 | a tree read from text with no NaN constant prints to a text that reads back to the same tree, `ASTequals` to it |
| Frontend.ChainText | src/App.tsx:347-352 | the printed text of a chain with printable tokens reads back to it |
| Frontend.RenderIsLossy | src/App.tsx:37-51 | `A and (B or C)` prints as `A and B or C` and reads back as `(A and B) or C` |
| Frontend.NaNReadsBackAsName | src/App.tsx:45 | a NaN constant prints as `NaN`, which reads back as the identifier `NaN` |
| Frontend.DefaultGoalExample | src/App.tsx:355 | the default goal text `A or B -> A or B` reads as `Implies(Or(A, B), Or(A, B))` |
| Frontend.ImpliesTextExample | src/App.tsx:347-352 | the text `A -> B -> C` reads as `Implies(A, Implies(B, C))` |
| Frontend.AndTextExample | src/App.tsx:347-352 | the text `A and B and C` reads as `And(And(A, B), C)` |
| Frontend.NotIsRejectedByParser | src/App.tsx:187-188 | `a1 and not b` lexes to `ID a1, AND, NOT, ID b`, and parsing it throws |

## Left out

- The React components `ProofTableComponent` and `App`, with their state hooks, event handlers, rule selection and undo (src/App.tsx:253-345, 354-380). They are user interface with no logical content. Only the default goal text is used, as an example.
- The `console.log` calls (src/App.tsx:247, 348-349), which are output only.
- Whether a whole tree of proof tables is complete. Only the recursive rendering of the interface builds that tree, so it is left out. `Validator.StepSound` gives the step that such a check would rely on.
- The rule index is an `int`. The interface can produce a NaN or fractional index through `Number(value)` (src/App.tsx:282); such an index finds no hypothesis and so is rejected like an out-of-range one. That case is not modelled separately.
- Text.NumberOf: a payload is an exact natural number or NaN. Floating-point rounding above 2^53 and `Infinity` from a huge exponent are not modelled.
- Text.NatToString: prints every number in plain decimal. `toString()` switches to exponent notation from 10^21; that is not modelled.
- Characters are Dafny `char`s. The source splits the string into UTF-16 code units; the two agree on every character the lexer accepts.
- The final `throw EvalError()` of `ASTtoString` (src/App.tsx:50) cannot be reached, because the match on the tree is exhaustive.
- Formulas.Render has no contract of its own. What it prints is stated by `Frontend.RenderIsUnlex`, and what reading it back gives is stated by `Frontend.RenderRoundTrip`.
