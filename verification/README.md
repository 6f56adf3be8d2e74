# Verification of the dispersed calculator

This project models, in Dafny, the calculator that lives under `trunk/libs/dispcalc`, and proves what its parts promise each other.

A client parses an infix formula to postfix, rebuilds it as a tree stored like a binary heap, cuts the tree into chunks of bounded height, sends each chunk as an XML-RPC call over HTTP, and computes the rest from the answers. The model follows that path:

| file | what it models |
|---|---|
| `Results.dfy`, `Decimal.dfy`, `DecimalLaws.dfy`, `Text.dfy`, `TextLaws.dfy` | results and exceptions; `lexical_cast` of integers; trimming, searching and splitting of strings; what each of them means |
| `Postfix.dfy` | postfix token lists, expression trees, 32-bit evaluation with truncating division |
| `StackMachines.dfy` | `Computer::compute` on the client and `ServerMethodCompute::execute` on the server |
| `HeapTree.dfy`, `HeapExample.dfy`, `Chunking.dfy` | `ExprTree`: the heap vector, `regenerate`, `toStack`, `height`; `chunk` and the class |
| `Supervisor.dfy` | `ClientControllerSupervisor`: slots, tasks, notifications, the final computation |
| `Distribution.dfy` | chunks computed apart and gathered in any order mean the whole expression |
| `InfixGrammar.dfy`, `ParserProduct.dfy`, `InfixToPostfix.dfy`, `FormulaShapes.dfy` | the grammar with its semantic actions, as functions and over the global stack, and what it accepts and emits |
| `HttpHeader.dfy`, `HeaderLines.dfy`, `HeaderRules.dfy`, `HeaderNormalForm.dfy` | header parsing, validation and printing; what each line is read as, where a header ends and what its length rules |
| `PacketReader.dfy`, `Fragmentation.dfy`, `BareLineFeeds.dfy`, `SizeLimit.dfy`, `PacketRoundTrip.dfy` | the incremental packet reader |
| `Base64.dfy`, `Base64Laws.dfy`, `AuthInfo.dfy` | base64 and the authorization option |
| `XmlValues.dfy`, `XmlRoundTrip.dfy`, `XmlMeaning.dfy` | XML-RPC values printed as element trees and parsed back; exactly which trees are accepted |
| `Calculator.dfy` | the path from the text of a formula to the reported number |

Objects whose methods change fields are classes; each of their methods is proved to do what a function on values says, and the laws are lemmas about those functions. A C++ exception, and an operation that is undefined in C++ (popping an empty stack, overflow, division by zero), is an error value, not a precondition.

`dafny verify dfyconfig.toml` checks everything.

## Main results

- **The calculator is correct.** For every text the parser matches completely, the reported number is the value of the formula on paper, however the text is read, computed at once or distributed, for every maximal height, every order of the answers and every layout of the documents that carry them (`Calculator.CalculatorCorrect`, `CalculatorCorrectOverTheWire`), and the composed program reports it (`ComputeText`). It rests on: the parser accepts exactly the texts of syntax trees (`GrammarExact`) and leaves their postfix lists; rebuilding and flattening a tree are inverse, and exactly when they are for lists that are not well formed; chunking conserves the expression; the two stack machines agree; the gather computes exactly once.
- **Fragmentation.** Under any size limit, or none, a byte stream gives its packet with the last fragment, however it is cut, if and only if it is shorter than the limit, is one framed packet, and no pair of bare line feeds ends before the CRLFCRLF that ends the header (`Fragmentation.IndependentExactly`). The unrestricted property is false of the code: `BareLineFeeds.DependsOnCut` gives a stream.
- **Size limit.** In every run, every delivered packet was built from fewer bytes than the limit, unless 2^32 or more were read for it; after a rejection every further read is rejected if and only if the header promises too much or the counter, which wraps around at 2^32, never falls below the limit (`SizeLimit.RejectedExactly`); if it does, a packet can be delivered that the limit should have stopped (`WrapAroundAccepts`).
- **Headers.** A dumped header is read back if and only if its options are clean (`HeaderNormalForm.HeaderRoundTripExactly`); every parsed header can be printed and parsed again without change, and every dumped packet with clean options is read back through the reader in any fragments, if the limit allows its length. Among clean options, credentials make a readable header if and only if they are at most 48 bytes, because longer base64 contains a line break, and arrive if and only if, besides, the name has no colon (`AuthInfo.CredentialsArriveExactly`).
- **Base64.** The encoding is that of section 4 of RFC 4648, bit by bit, wrapped within the 76 characters of section 6.8 of RFC 2045; decoding gives the bytes back, however the text is wrapped. Exactly which texts it accepts is stated too (`Base64Laws.DecodeExactly`), and that is more than the standard allows: padding may stand in the middle, and anything may follow a padding character in the third place of a group.
- **XML values.** A printed value parses to itself, in any layout, if and only if no structure member has a blank name (`XmlRoundTrip.ValueRoundTrip`). Which trees the parser accepts, and what each means, is stated without the parser (`XmlMeaning.MeansExactly`). The elements are those of the XML-RPC specification, sections "Scalar <value>s", "<array>s" and "<struct>s".

Where the code and its documentation differ the model follows the code.

## Model

| member | source | states |
|---|---|---|
| Decimal.IntRoundTrip | trunk/libs/dispcalc/ClientControllerTask.cpp:29 | an `int` written with `lexical_cast` reads back as itself |
| Decimal.UnsignedRoundTrip | trunk/libs/dispcalc/libiqxmlrpc/http.cc:186-189 | an unsigned option value reads back as itself |
| DecimalLaws.DigitsArePositional | trunk/libs/dispcalc/Parser.cpp:28 | a run of digits denotes the sum of its digits, by their character codes, times the powers of ten of their places |
| DecimalLaws.OneDigit | trunk/libs/dispcalc/ClientControllerTask.cpp:29 | each number below ten is written as its digit |
| DecimalLaws.LexicalIntExactly | trunk/libs/dispcalc/computer/Computer.h:37 | a text is read as an `int` if and only if it is a numeral, with a sign or without, of a 32-bit number, and is read as that number |
| DecimalLaws.LexicalUnsignedExactly | trunk/libs/dispcalc/libiqxmlrpc/http.cc:55-67 | a text is read as an `unsigned` if and only if it is digits of a number below 2^32, and is read as that number |
| DecimalLaws.IntTextExactly | trunk/libs/dispcalc/Parser.cpp:29 | the text written for a number is its one numeral without a plus, leading zeros or a negative zero |
| TextLaws.BlankTable | trunk/libs/dispcalc/libiqxmlrpc/value_type.cc:472 | the six characters that count as white space |
| TextLaws.LowerExactly | trunk/libs/dispcalc/libiqxmlrpc/http.cc:135 | lowering turns each of the 26 capitals into its small letter and keeps every other character |
| TextLaws.TrimExactly | trunk/libs/dispcalc/libiqxmlrpc/http.cc:133-134 | trimming takes off exactly the white space at both ends |
| TextLaws.FindExactly | trunk/libs/dispcalc/libiqxmlrpc/http.cc:125 | a search finds an occurrence if there is one, and none that begins later than another |
| Text.SplitField | trunk/libs/dispcalc/libiqxmlrpc/http.cc:117 | splitting takes off a field and a whole run of separators, then goes on |
| Postfix.TruncatedQuotient | trunk/libs/dispcalc/computer/Computer.h:59-65 | the quotient is truncated toward zero: the remainder is smaller than the divisor and has the sign of the dividend |
| Postfix.Apply | trunk/libs/dispcalc/ServerMethods.cpp:62-65 | a result fits an `int` and is what the operation means on its operands in their order; division by zero is an error of its own |
| Postfix.ApplyExactly | trunk/libs/dispcalc/ServerMethods.cpp:62-65 | the exact sum, difference, product or truncated quotient is the result if it fits an `int`; overflow is reported exactly if it does not |
| Postfix.DivisionOverflow | trunk/libs/dispcalc/computer/Computer.h:59-65 | a division of two `int`s overflows exactly for the least `int` divided by -1 |
| Postfix.PostIsWellFormed | trunk/libs/dispcalc/Parser.cpp:16-25 | the postfix list of an expression leaves exactly one more operand pending than there was before it |
| Postfix.WellFormedIffPost | trunk/libs/dispcalc/parser/ExprTree.h:96-140 | a list passes the counting test for postfix if and only if it is the postfix list of some expression |
| Postfix.PostUnique | trunk/libs/dispcalc/parser/ExprTree.h:96-140 | the expression at the end of a token list is determined by the list |
| StackMachines.Computer.Compute | trunk/libs/dispcalc/computer/Computer.h:26-76 | the client loop computes the specified run, with its stale-result behaviour on unknown tokens |
| StackMachines.ServerMethodCompute.Execute | trunk/libs/dispcalc/ServerMethods.cpp:40-79 | the server loop computes the specified run on top of what its number stack holds, and leaves the stack the run leaves |
| StackMachines.NumberToken | trunk/libs/dispcalc/computer/Computer.h:36-38 | a token that begins with a digit or a minus is pushed as the number it is the numeral of, or ends the run, in both machines |
| StackMachines.OperatorWords | trunk/libs/dispcalc/ServerMethods.cpp:62-65 | what ADD, SUBTRACT, MULTIPLY and DIVIDE do to the two topmost numbers, in both machines |
| StackMachines.OtherToken | trunk/libs/dispcalc/computer/Computer.h:72 | any other token makes the client push its last result again and the server replace two numbers by it |
| StackMachines.WordsOfParser | trunk/libs/dispcalc/Parser.cpp:22-25 | the four words the parser writes |
| StackMachines.ClientRunsPost | trunk/libs/dispcalc/computer/Computer.h:31-74 | running the postfix list of an expression pushes its value and leaves everything below alone, or stops with its first fault |
| StackMachines.SameRun | trunk/libs/dispcalc/ServerMethods.cpp:48-75 | on numbers and operators in any order both loops do the same to any number stack |
| StackMachines.MachinesAgree | trunk/libs/dispcalc/ServerMethods.cpp:48-78 | client and server give the same answer or the same fault on every list of numbers and operators |
| StackMachines.MachinesEvaluate | trunk/libs/dispcalc/computer/Computer.h:26-76 | on well-formed postfix both machines give exactly the recursive evaluation, and never pop an empty stack |
| StackMachines.ServerLeavesBaseAlone | trunk/libs/dispcalc/ServerMethods.cpp:50-78 | a run leaves one number on top of an unchanged number stack |
| StackMachines.AgreeExactly | trunk/libs/dispcalc/computer/Computer.h:38-72 | started on equal stacks, client and server have equal stacks, or the same fault, after every prefix of a list if and only if no unknown token is reached before a fault |
| StackMachines.UnknownTokenTellsThemApart | trunk/libs/dispcalc/computer/Computer.h:38-72 | any unknown token alone: the client answers 0, the server pops an empty stack |
| Chunking.ExprTree.Add | trunk/libs/dispcalc/parser/ExprTree.h:36-43 | writing at a position grows the vector with "N" up to it |
| HeapTree.GetPut | trunk/libs/dispcalc/parser/ExprTree.h:36-54 | reading after writing: the written position changes, no other does, and the vector ends no earlier |
| Chunking.ExprTree.Regenerate | trunk/libs/dispcalc/parser/ExprTree.h:96-140 | the loop rebuilds the specified vector and is defined exactly when no empty stack is popped |
| Chunking.ExprTree.ToStack | trunk/libs/dispcalc/parser/ExprTree.h:142-161 | the recursive flattening, with the two list-moving loops, ends and gives the specified list |
| Chunking.ExprTree.Chunk | trunk/libs/dispcalc/parser/ExprTree.h:163-184 | for every tree `regenerate` can build, the trees returned are those of the specified chunks; the recursion ends because the height decreases |
| HeapTree.PlantHolds | trunk/libs/dispcalc/parser/ExprTree.h:101-139 | a tree stored in free space is there, each branch in its place and nothing where it has a gap |
| HeapTree.GrowFull | trunk/libs/dispcalc/parser/ExprTree.h:114-139 | reading a full tree's list from its end stores the tree at the next free place, uses one pending branch, and overwrites nothing |
| HeapTree.GrowPartial | trunk/libs/dispcalc/parser/ExprTree.h:114-139 | reading a list that breaks off stores the part of the tree that is there, overwrites nothing and never pops an empty stack |
| HeapTree.RebuildExactly | trunk/libs/dispcalc/parser/ExprTree.h:96-140 | `regenerate` pops no empty stack if and only if the list is the tokens of one root with at most two operands, complete or broken off, and then stores that tree |
| HeapTree.FlattenInvertsExactly | trunk/libs/dispcalc/parser/ExprTree.h:96-161 | whatever list was rebuilt, flattening gives it back if and only if it ends with an operator or is a single token |
| HeapTree.RebuildPost | trunk/libs/dispcalc/parser/ExprTree.h:96-140 | `regenerate` on well-formed postfix stores the expression, never pops an empty stack, ends with no branch pending and never overwrites an occupied position |
| HeapTree.FlattenHolds | trunk/libs/dispcalc/parser/ExprTree.h:142-161 | flattening a stored tree gives its list; branches count only below operators, and a gap gives "N" |
| HeapTree.FlattenInvertsRebuild | trunk/libs/dispcalc/parser/ExprTree.h:96-161 | for every well-formed list, rebuilding and flattening gives the list back |
| HeapTree.RebuildInvertsFlatten | trunk/libs/dispcalc/parser/ExprTree.h:168-175 | flattening and rebuilding gives the vector of each branch, for every tree that can be built, and of the tree itself if its root is an operator |
| HeapTree.MaxIndexLevel | trunk/libs/dispcalc/parser/ExprTree.h:92-94 | the greatest occupied position of any tree, with gaps or without, lies in its last level |
| HeapTree.HeightOfLayout | trunk/libs/dispcalc/parser/ExprTree.h:92-94 | the vector ends at its greatest occupied position and the logarithm of its size is the height of the expression |
| HeapExample.SmallVector | trunk/libs/dispcalc/parser/ExprTree.h:96-140 | the vector of a formula of three numbers, position by position, with the "N" of the empty places |
| Chunking.CutConserves | trunk/libs/dispcalc/parser/ExprTree.h:163-184 | the chunks of a full tree, written one after another, are its list |
| Chunking.CutConservesRoot | trunk/libs/dispcalc/parser/ExprTree.h:163-184 | the chunks of any tree that is cut are its tokens, apart from an "N" for each gap at a cut |
| Chunking.ChunksConserve | trunk/libs/dispcalc/parser/ExprTree.h:163-184 | the chunks written one after another are the postfix list of the whole expression |
| Chunking.ChunksAreLow | trunk/libs/dispcalc/parser/ExprTree.h:163-184 | no chunk of any tree is higher than the maximal height |
| Chunking.SomeChunkIsFull | trunk/libs/dispcalc/ClientControllerSupervisor.cpp:64-111 | any tree at least that high has a chunk of exactly the maximal height |
| Chunking.CutIsCoarsest | trunk/libs/dispcalc/parser/ExprTree.h:163-184 | nothing is cut that need not be: the number of chunks is one more than twice the number of nodes that are too high |
| Supervisor.ClientControllerSupervisor.constructor | trunk/libs/dispcalc/ClientControllerSupervisor.cpp:21-25 | a new supervisor holds the rebuilt tree, no slots and no reports |
| Supervisor.ClientControllerSupervisor.Run | trunk/libs/dispcalc/ClientControllerSupervisor.cpp:27-37 | a low tree is computed at once from its literal slots; any other is dispatched and nothing is reported yet |
| Supervisor.ClientControllerSupervisor.AssignResultStack | trunk/libs/dispcalc/ClientControllerSupervisor.cpp:42-50 | every token of the tree becomes a literal slot, in order |
| Supervisor.ClientControllerSupervisor.DispatchTree | trunk/libs/dispcalc/ClientControllerSupervisor.cpp:64-111 | the tree is cut at the maximal height, or at 1 if that is 0; one slot for each chunk in order, a task with the flattened chunk and its slot index for each chunk that is not of height 0 |
| Supervisor.SlotsExactly | trunk/libs/dispcalc/ClientControllerSupervisor.cpp:87-108 | a chunk of a single token is in its slot at once, any other slot waits for the thread of its chunk |
| Supervisor.TasksExactly | trunk/libs/dispcalc/ClientControllerSupervisor.cpp:91-107 | there is a task for each chunk higher than a single token and for no other, in slot order, with the chunk's list, thread and slot |
| Supervisor.ClientControllerSupervisor.Notify | trunk/libs/dispcalc/ClientControllerSupervisor.cpp:113-130 | one step of the gather: an id that is not the slot's changes nothing, the slot's own fills it, and a complete stack is computed |
| Supervisor.ClientControllerSupervisor.IsResultComplete | trunk/libs/dispcalc/ClientControllerSupervisor.cpp:132-139 | true if and only if every slot holds a result |
| Supervisor.ClientControllerSupervisor.FinalComputation | trunk/libs/dispcalc/ClientControllerSupervisor.cpp:170-192 | reports the client computation of the results in slot order |
| Supervisor.SlotsAfter | trunk/libs/dispcalc/ClientControllerSupervisor.cpp:113-123 | after any notifications thread ids are unchanged and a slot holds a result exactly if it did before or has been answered; other slots are untouched |
| Supervisor.AnswerKept | trunk/libs/dispcalc/ClientControllerSupervisor.cpp:113-123 | a slot answered once keeps that answer |
| Supervisor.SilentBefore | trunk/libs/dispcalc/ClientControllerSupervisor.cpp:124-129 | nothing is reported before the last task has notified |
| Supervisor.FinalComputationOnce | trunk/libs/dispcalc/ClientControllerSupervisor.cpp:113-139 | in every interleaving in which each task notifies once, the final computation runs exactly once, at the last task's notification, on the slots in original order, and literal slots never change |
| Supervisor.ReportsCounted | trunk/libs/dispcalc/ClientControllerSupervisor.cpp:113-139 | in any run whatever, the number of final computations is the number of accepted notifications that find every task answered |
| Distribution.SlotsHoldCollapsed | trunk/libs/dispcalc/ClientControllerSupervisor.cpp:87-111 | all slots get a text if and only if all tasks succeed, and then they hold the postfix list of the expression with each chunk replaced by its number |
| Distribution.CollapseKeepsValue | trunk/libs/dispcalc/ClientControllerSupervisor.cpp:87-111 | replacing chunks by their numbers keeps the value, and the fault if there is one |
| Distribution.DistributionPreservesMeaning | trunk/libs/dispcalc/ClientControllerSupervisor.cpp:87-192 | for every expression and every maximal height the distributed result is the evaluation; it exists if and only if the expression has a value |
| Distribution.DispatchStartsATask | trunk/libs/dispcalc/ClientControllerSupervisor.cpp:64-111 | whenever any tree is dispatched some slot waits for a task, of a chunk of exactly the maximal height, or of height 1 if that is 0 |
| Distribution.GatheredResult | trunk/libs/dispcalc/ClientControllerSupervisor.cpp:64-192 | however the honest notifications interleave, there is one report and it is the evaluation of the expression |
| Distribution.HonestReports | trunk/libs/dispcalc/ClientControllerSupervisor.cpp:113-192 | also if honest notifications are missing or repeated, every report is the evaluation of the expression, and nothing is reported if the server fails on some chunk |
| ParserProduct.ExpressionStack.DoInt | trunk/libs/dispcalc/Parser.cpp:16-21 | pushes the text of the digits |
| ParserProduct.ExpressionStack.DoOp | trunk/libs/dispcalc/Parser.cpp:22-25 | pushes the name of the operator |
| ParserProduct.ExpressionStack.DoNeg | trunk/libs/dispcalc/Parser.cpp:26-30 | replaces the last token by its negation, or leaves the stack and throws if it is no `int` |
| ParserProduct.ExpressionStack.Expression | trunk/libs/dispcalc/parser/Parser.h:34-38 | matching on the global stack does what the grammar says, including tokens left by parts that fail and by an exception |
| ParserProduct.ExpressionStack.Term | trunk/libs/dispcalc/parser/Parser.h:41-45 | the same for products |
| ParserProduct.ExpressionStack.Factor | trunk/libs/dispcalc/parser/Parser.h:48-52 | the same for the four alternatives of a factor |
| InfixToPostfix.FactorByChar | trunk/libs/dispcalc/parser/Parser.h:48-52 | the next character decides which alternative of a factor can match |
| InfixToPostfix.FactorSound | trunk/libs/dispcalc/parser/Parser.h:48-52 | a factor that matches consumed the text of a syntax tree and added exactly its tokens |
| InfixToPostfix.ExpressionSound | trunk/libs/dispcalc/parser/Parser.h:34-38 | so did an expression, unless the text left begins with an operator whose operand failed |
| InfixToPostfix.ExpressionComplete | trunk/libs/dispcalc/parser/Parser.h:34-38 | the text of every syntax tree is matched, with its tokens, or with the exception its actions throw and the tokens pushed until then |
| InfixToPostfix.GrammarExact | trunk/libs/dispcalc/parser/Parser.h:34-52 | the parser matches a text completely with given tokens if and only if the text spells a syntax tree with those tokens; no token of an abandoned alternative remains |
| InfixToPostfix.SumMeaning | trunk/libs/dispcalc/parser/Parser.h:34-52 | the tokens of a syntax tree are the postfix list of its left-associated expression, which has the value of the formula |
| InfixToPostfix.OneMeaning | trunk/libs/dispcalc/parser/Parser.h:34-52 | all syntax trees a text spells emit the same tokens, or end with the same exception, and have the same value |
| InfixToPostfix.InfixToPostfixCorrect | trunk/libs/dispcalc/parser/Parser.h:34-52 | a completely matched text leaves well-formed postfix with the value of the formula on paper, however the text is read |
| InfixToPostfix.SignFolding | trunk/libs/dispcalc/Parser.cpp:26-30 | any nesting of signs and parentheses around digits emits one token, the number negated once for each minus, and throws exactly if there is a minus and the number does not fit |
| InfixToPostfix.SumEmits | trunk/libs/dispcalc/Parser.cpp:26-30 | the actions get through if and only if every minus stands before a literal that fits an `int` |
| InfixToPostfix.ParsedIffSignsFit | trunk/libs/dispcalc/Parser.cpp:26-30 | a text of the grammar is parsed if and only if every minus in it stands before a literal that fits; otherwise the parser ends with a bad cast |
| FormulaShapes.TwoOperators | trunk/libs/dispcalc/parser/Parser.h:34-45 | a formula of three numbers and two operators, character by character: the tighter operator first, else from left to right |
| FormulaShapes.Bracketed | trunk/libs/dispcalc/parser/Parser.h:50 | a formula in brackets is applied as a whole, whatever the operator before it |
| FormulaShapes.SignedNumber | trunk/libs/dispcalc/parser/Parser.h:51-52 | a minus before digits leaves their number negated, a plus leaves the digits |
| FormulaShapes.TokensStay | trunk/libs/dispcalc/parser/Parser.h:34-52 | a part that fails does not take its tokens back: a formula that breaks off after an open bracket leaves the number behind it on the stack |
| HttpHeader.OptionRoundTrip | trunk/libs/dispcalc/libiqxmlrpc/http.cc:124-137 | a printed option line reads back as that option |
| HttpHeader.LinesSplit | trunk/libs/dispcalc/libiqxmlrpc/http.cc:115-122 | printed lines split into exactly those lines |
| HttpHeader.HeaderRoundTrip | trunk/libs/dispcalc/libiqxmlrpc/http.cc:113-214 | parsing a dumped header without its final blank line restores the head line and every option, in any order of the options |
| HeaderLines.EveryLine | trunk/libs/dispcalc/libiqxmlrpc/http.cc:124-135 | every line with a colon is a name, the first colon and a value, with blanks around them |
| HeaderLines.ConnectionLine | trunk/libs/dispcalc/libiqxmlrpc/http.cc:69-76 | a connection option is read if and only if it says close or keep-alive, in any case; else the packet is malformed |
| HeaderLines.ContentLengthLine | trunk/libs/dispcalc/libiqxmlrpc/http.cc:55-67 | a content-length is read if and only if it is digits of a number below 2^32; else the packet is malformed |
| HeaderLines.ContentTypeLine | trunk/libs/dispcalc/libiqxmlrpc/http.cc:78-85 | a content-type is always read by the weak checks, and by the strict ones if and only if text/xml occurs in it, in any case; else the type is unsupported |
| HeaderLines.OtherLine | trunk/libs/dispcalc/libiqxmlrpc/http.cc:167-179 | an option of any other name is always read, under its lower-cased name |
| HeaderLines.LineWithoutColon | trunk/libs/dispcalc/libiqxmlrpc/http.cc:126-127 | a line without a colon is malformed |
| HeaderLines.LinesInOrder | trunk/libs/dispcalc/libiqxmlrpc/http.cc:124-137 | lines are read in order, a later one replaces an earlier one of its name, and the first that is refused ends the parse |
| HeaderLines.WrittenOptionsAreClean | trunk/libs/dispcalc/libiqxmlrpc/http.cc:216-227 | the length, type and connection options the library itself sets can be printed and read at both levels |
| HeaderRules.DumpOne | trunk/libs/dispcalc/libiqxmlrpc/http.cc:204-214 | a printed header with one option, character by character |
| HeaderRules.HeadLineOnly | trunk/libs/dispcalc/libiqxmlrpc/http.cc:90-98 | a header of nothing but a head line has the one option connection: close |
| HeaderRules.RequestBuilt | trunk/libs/dispcalc/libiqxmlrpc/http.cc:243-265 | a request must begin with the word POST; host and user-agent are filled in if they are missing |
| HeaderRules.ResponseBuilt | trunk/libs/dispcalc/libiqxmlrpc/http.cc:331-343 | a response's head line must have a second word; server is filled in if it is missing |
| HeaderRules.HeaderEndExactly | trunk/libs/dispcalc/libiqxmlrpc/http.cc:437-443 | a header ends at the first CRLFCRLF; if there is none, at the first pair of line feeds |
| HeaderNormalForm.ParsedIsClean | trunk/libs/dispcalc/libiqxmlrpc/http.cc:113-179 | every parsed header has a one-line head and only trimmed, lower-case, validated options; its length can always be read |
| HeaderNormalForm.ParsePrintParse | trunk/libs/dispcalc/libiqxmlrpc/http.cc:113-214 | printing a parsed header and parsing it again changes nothing |
| HeaderNormalForm.HeaderRoundTripExactly | trunk/libs/dispcalc/libiqxmlrpc/http.cc:113-214 | a dumped header is read back if and only if its head is one line and every option is trimmed, lower-case, colon-free, one line and validated |
| HeaderNormalForm.StrictIsWeak | trunk/libs/dispcalc/libiqxmlrpc/http.cc:95-97 | what passes the strict checks passes the weak ones with the same result |
| HeaderNormalForm.OnlyContentTypeDiffers | trunk/libs/dispcalc/libiqxmlrpc/http.cc:78-85 | a header only the weak checks accept is refused by the strict ones for its content type |
| PacketReader.PacketReader.Clear | trunk/libs/dispcalc/libiqxmlrpc/http.cc:409-416 | clearing empties everything but the level and the limit |
| PacketReader.PacketReader.CheckSz | trunk/libs/dispcalc/libiqxmlrpc/http.cc:418-430 | the size check, with its 32-bit counter and its early exits |
| PacketReader.PacketReader.ReadHeader | trunk/libs/dispcalc/libiqxmlrpc/http.cc:432-451 | the header ends at the first CRLFCRLF, or else at the first pair of line feeds; the rest is content |
| PacketReader.PacketReader.ReadPacket | trunk/libs/dispcalc/libiqxmlrpc/http.cc:453-493 | the whole call, on every field of the reader |
| HeaderRules.HeaderCompleted | trunk/libs/dispcalc/libiqxmlrpc/http.cc:462-489 | the read that completes a header answers the packet with exactly the bytes the digits of its length option count, once they are there, or the error of a length that is missing or no number |
| HeaderRules.ContentRead | trunk/libs/dispcalc/libiqxmlrpc/http.cc:471-489 | so does every later read, for all content so far |
| HeaderRules.EmptyBeforeHeader | trunk/libs/dispcalc/libiqxmlrpc/http.cc:461-465 | before the header is complete an empty read is malformed and changes nothing |
| HeaderRules.LengthRequiredAfterwards | trunk/libs/dispcalc/libiqxmlrpc/http.cc:229-235 | once a header without a length is there, every read that is not for the header only fails for it, under any limit |
| HeaderRules.LengthRequiredInFragments | trunk/libs/dispcalc/libiqxmlrpc/http.cc:229-235 | in any fragments such a stream answers nothing until its header is complete and the error from then on |
| Fragmentation.FeedFramed | trunk/libs/dispcalc/libiqxmlrpc/http.cc:453-493 | under a limit the stream keeps to, or none, after any fragments of a framed stream the reader is in the state its byte count determines, and has answered nothing yet |
| Fragmentation.FramedIsIndependent | trunk/libs/dispcalc/libiqxmlrpc/http.cc:453-493 | within the limit, one packet's bytes in any fragments give nothing before the last and then the packet |
| Fragmentation.IndependentIsFramed | trunk/libs/dispcalc/libiqxmlrpc/http.cc:453-493 | a stream that gives its packet however it is cut is one framed packet with no byte to spare |
| Fragmentation.EarlyBareEndSplits | trunk/libs/dispcalc/libiqxmlrpc/http.cc:438-441 | if a pair of bare line feeds comes before the CRLFCRLF, some way of cutting the stream does not give its packet |
| Fragmentation.OverLimitRejected | trunk/libs/dispcalc/libiqxmlrpc/http.cc:418-430 | no packet arrives in every fragmentation of a stream as long as the limit or longer |
| Fragmentation.IndependentExactly | trunk/libs/dispcalc/libiqxmlrpc/http.cc:418-493 | under any limit, or none, independence of fragmentation holds if and only if the stream is shorter than the limit and is one framed packet without an early pair of line feeds |
| Fragmentation.HeaderOnlyRead | trunk/libs/dispcalc/libiqxmlrpc/http.cc:474-478 | a header-only read answers as soon as the header is complete, with no content |
| Fragmentation.ReusedIsFresh | trunk/libs/dispcalc/libiqxmlrpc/http.cc:456-457 | after a packet a reader answers as a new one does |
| Fragmentation.PacketsInSequence | trunk/libs/dispcalc/libiqxmlrpc/http.cc:453-493 | one reader, with a limit or without, serves any number of packets within it, each cut in its own way |
| BareLineFeeds.DependsOnCut | trunk/libs/dispcalc/libiqxmlrpc/http.cc:438-441 | a concrete framed stream on which the answer depends on the cut |
| SizeLimit.DeliveredWithinLimit | trunk/libs/dispcalc/libiqxmlrpc/http.cc:418-430 | in any run of a reader under a limit, every delivered packet was built from fewer bytes than the limit since the reader was new or last delivered |
| SizeLimit.AfterReused | trunk/libs/dispcalc/libiqxmlrpc/http.cc:456-457 | after a delivery any calls whatever are answered, and leave the reader, as if it were new |
| SizeLimit.RejectionRejects | trunk/libs/dispcalc/libiqxmlrpc/http.cc:418-430 | a rejection leaves the reader over its limit |
| SizeLimit.RejectedAgain | trunk/libs/dispcalc/libiqxmlrpc/http.cc:418-430 | then a read is rejected if and only if the header promises too much, which changes nothing, or the wrapped counter is not below the limit, which changes the counter only |
| SizeLimit.RejectedExactly | trunk/libs/dispcalc/libiqxmlrpc/http.cc:418-430 | after a rejection every read of a run is rejected if and only if the header promises too much or the wrapped counter is not below the limit after any of them |
| SizeLimit.RejectionIsFinal | trunk/libs/dispcalc/libiqxmlrpc/http.cc:418-430 | so, as long as the counter cannot have wrapped, a rejected reader rejects everything |
| SizeLimit.WrapAroundAccepts | trunk/libs/dispcalc/libiqxmlrpc/http.cc:428-429 | after rejections before the header was there, a fragment that completes a framed packet and wraps the counter to below the limit is delivered, so the limit no longer holds |
| SizeLimit.RejectedFirst | trunk/libs/dispcalc/libiqxmlrpc/http.cc:418-430 | a first read as large as the limit is rejected before any header is there, and leaves a new reader but for its counter |
| PacketRoundTrip.BlankLineFirst | trunk/libs/dispcalc/libiqxmlrpc/http.cc:204-214 | the first CRLFCRLF of a dumped packet is the end of its header |
| PacketRoundTrip.DumpEnd | trunk/libs/dispcalc/libiqxmlrpc/http.cc:204-214 | the header of a dumped packet ends with its dump and no bare pair of line feeds comes before |
| PacketRoundTrip.DumpedPacketArrives | trunk/libs/dispcalc/libiqxmlrpc/http.cc:392-397 | a dumped packet arrives in any fragments with the last one, same head line, options up to defaults, content, if and only if the reader's limit allows its length |
| Base64.AlphabetTable | trunk/libs/dispcalc/libiqxmlrpc/value_type.cc:314-319 | the alphabet, row by row |
| Base64.BinaryData.AddBase64Char | trunk/libs/dispcalc/libiqxmlrpc/value_type.cc:367-373 | a character is appended, after a line break if the length is a multiple of 64 |
| Base64.BinaryData.EncodeData | trunk/libs/dispcalc/libiqxmlrpc/value_type.cc:376-411 | the loop with its early returns appends the specified encoding |
| Base64.BinaryData.GetBase64 | trunk/libs/dispcalc/libiqxmlrpc/value_type.cc:358-364 | the text is computed on first use and kept |
| Base64.BinaryData.DecodeData | trunk/libs/dispcalc/libiqxmlrpc/value_type.cc:464-485 | the loop appends the specified bytes, or fails exactly when the specification does |
| Base64Laws.EncodeIsWrapped | trunk/libs/dispcalc/libiqxmlrpc/value_type.cc:376-411 | the encoding is the standard's characters, wrapped, and then the padding |
| Base64Laws.CharIsSixBits | trunk/libs/dispcalc/libiqxmlrpc/value_type.cc:381-410 | each character is that of the alphabet for six consecutive bits of the input, zeros added at the end |
| Base64Laws.RewrappedDecodes | trunk/libs/dispcalc/libiqxmlrpc/value_type.cc:464-485 | an encoding broken into lines of any length, or with other white space in it, decodes to its bytes |
| Base64Laws.Base64RoundTrip | trunk/libs/dispcalc/libiqxmlrpc/value_type.cc:376-485 | for every byte string decoding its encoding gives it back |
| Base64Laws.DecodeFourExactly | trunk/libs/dispcalc/libiqxmlrpc/value_type.cc:438-461 | which groups of four are accepted, and how many bytes each gives |
| Base64Laws.GroupMeans | trunk/libs/dispcalc/libiqxmlrpc/value_type.cc:438-461 | the bytes of a group are its characters' places in the table, bit after bit; bits that fill no byte are dropped |
| Base64Laws.DecodeExactly | trunk/libs/dispcalc/libiqxmlrpc/value_type.cc:464-485 | decoding succeeds if and only if, white space aside, the text is groups of four that are in order; the only error is malformed data |
| Base64Laws.Base64Layout | trunk/libs/dispcalc/libiqxmlrpc/value_type.cc:367-411 | 4 * ceil(n / 3) characters besides line breaks, and no line longer than 65 |
| Base64Laws.BreaksExactly | trunk/libs/dispcalc/libiqxmlrpc/value_type.cc:367-373 | line breaks stand at every positive multiple of 64 before the padding and nowhere else |
| Base64Laws.OneLineUpTo48 | trunk/libs/dispcalc/libiqxmlrpc/value_type.cc:367-373 | the encoding has a line break if and only if there are more than 48 bytes |
| AuthInfo.CredentialsRoundTrip | trunk/libs/dispcalc/libiqxmlrpc/http.cc:298-328 | in memory the credentials come back if and only if the user name has no colon |
| AuthInfo.GetAuthInfoExactly | trunk/libs/dispcalc/libiqxmlrpc/http.cc:298-321 | an option gives credentials if and only if it is two words, the first basic in any case, the second base64 of a name without a colon, a colon and a password |
| AuthInfo.OtherSchemeRefused | trunk/libs/dispcalc/libiqxmlrpc/http.cc:305-313 | it is refused as unauthorized if and only if it is not two words or the first is not basic |
| AuthInfo.CleanUpTo48 | trunk/libs/dispcalc/libiqxmlrpc/http.cc:323-328 | the authorization option meets the conditions for printing, one line and trimmed, if and only if it encodes at most 48 bytes |
| AuthInfo.LongCredentialsUnreadable | trunk/libs/dispcalc/libiqxmlrpc/http.cc:323-328 | longer credentials make the printed header malformed, wherever the option stands and whatever follows it, if the options before it can be read |
| AuthInfo.CredentialsArriveExactly | trunk/libs/dispcalc/libiqxmlrpc/http.cc:298-328 | printed and parsed again among clean options, the header can be read if and only if the credentials are at most 48 bytes, and gives them back if and only if, besides, the name has no colon |
| AuthInfo.CredentialsAlone | trunk/libs/dispcalc/libiqxmlrpc/http.cc:298-328 | a header with no other option carries its credentials under that condition alone: there the demand on the other options is void |
| XmlValues.ValueTypeToXml.VisitValue | trunk/libs/dispcalc/libiqxmlrpc/value_type_xml.cc:38-43 | one value element with the tree of the value is added to the parent |
| XmlValues.ValueTypeToXml.Visit | trunk/libs/dispcalc/libiqxmlrpc/value_type_xml.cc:45-106 | the tree of each type, with the loops over members and items |
| XmlValues.ParseValueProgram | trunk/libs/dispcalc/libiqxmlrpc/parser.cc:75-98 | the table lookup and the recursion compute the specified value or error |
| XmlValues.ElementsOnlyLoop | trunk/libs/dispcalc/libiqxmlrpc/parser.cc:101-127 | the loop keeps the elements, drops white space and refuses other text |
| XmlValues.ArrayParserLoop | trunk/libs/dispcalc/libiqxmlrpc/parser_specific.cc:163-180 | the array parser with its loop |
| XmlValues.StructParserLoop | trunk/libs/dispcalc/libiqxmlrpc/parser_specific.cc:183-204 | the structure parser with its loop and its insertions |
| XmlValues.InsertLast | trunk/libs/dispcalc/libiqxmlrpc/value_type.cc:301-310 | inserting a greater name into a sorted structure puts it last |
| XmlMeaning.InsertExactly | trunk/libs/dispcalc/libiqxmlrpc/value_type.cc:301-310 | insertion keeps a structure sorted, sets the one name, and leaves every other name's value as it was |
| XmlMeaning.LessExactly | trunk/libs/dispcalc/libiqxmlrpc/value_type.cc:301-310 | the order of names is that of a dictionary |
| XmlMeaning.CollectsExactly | trunk/libs/dispcalc/libiqxmlrpc/parser_specific.cc:183-204 | members in any order, with repeats, give the one sorted structure that holds exactly their names, each with its last value |
| XmlRoundTrip.LaidOutIsElements | trunk/libs/dispcalc/libiqxmlrpc/parser.cc:101-127 | `elements_only` gives a list if and only if the children are that list with white space and comments between |
| XmlRoundTrip.RenderSpells | trunk/libs/dispcalc/libiqxmlrpc/value_type_xml.cc:38-106 | the visitor's tree is a document for the value |
| XmlRoundTrip.MembersParse | trunk/libs/dispcalc/libiqxmlrpc/parser_specific.cc:183-222 | the members of a structure come back in order, or there is an error if a name is blank |
| XmlRoundTrip.DocumentParses | trunk/libs/dispcalc/libiqxmlrpc/parser_specific.cc:163-222 | in any layout a document of a value parses to that value if no member has a blank name, and fails otherwise |
| XmlRoundTrip.ValueRoundTrip | trunk/libs/dispcalc/libiqxmlrpc/parser.cc:75-98 | the printed tree parses to the printed value if and only if no member of a structure in it has a blank name |
| XmlRoundTrip.DocumentUnambiguous | trunk/libs/dispcalc/libiqxmlrpc/parser.cc:75-98 | two values with a common document are equal |
| XmlMeaning.MeansExactly | trunk/libs/dispcalc/libiqxmlrpc/parser.cc:75-168 | the parser accepts a value element if and only if it means a value, and gives that value: every type name, the default type, texts, layout, and members in any order |
| Calculator.TaskRoundTrip | trunk/libs/dispcalc/ClientControllerTask.cpp:22-58 | however request and response are laid out, a task notifies with the value of its expression as text |
| Calculator.PieceRoundTrip | trunk/libs/dispcalc/ClientControllerTask.cpp:22-58 | a chunk's task gets a text over documents of any layout if and only if it is the text the chunk's slot needs |
| Calculator.CalculatorCorrect | trunk/libs/dispcalc/ClientControllerActions.cpp:23-47 | from the text of a formula to the report: the value on paper, however the text is read, computed at once or gathered in any order |
| Calculator.CalculatorCorrectOverTheWire | trunk/libs/dispcalc/ClientControllerActions.cpp:23-47 | the same when each answer comes by request and response documents of any layout |
| Calculator.Supervise | trunk/libs/dispcalc/ClientController.cpp:87-90 | a supervisor made for the tokens of an expression, run, and notified, has reported what the specification of the gather says |
| Calculator.ComputeText | trunk/libs/dispcalc/ClientControllerActions.cpp:33-46 | the composed program, from the parser on the global stack to the last notification, reports exactly once, the value of the formula, for low and high trees alike; if a minus does not fit it throws and reports nothing |

## Left out

- Sockets, TLS, `poll` and `select`, acceptors, connectors, the reactor, threads and the thread pool: the network and the scheduler are parameters (byte fragments, thread ids, the order of notifications).
- `dispatchTree` racing with early `notify` calls, and `abort`: slots are appended and indices are set without the lock, so the gather is modelled from the end of dispatch; `computers_`, which only `visit` and `abort` read, is not modelled.
- Text that is only matched in part: the caller ignores the parser's verdict. The tree such tokens rebuild to, its chunks and its dispatch are modelled like any other; what tokens such a match leaves is stated only up to the operator at which it stopped, and nothing is said of the number then reported.
- The empty expression: the height of an empty tree is the logarithm of zero, which does not fit an `int`.
- Chunking.ExprTree.Height: is exact where the C++ code uses a floating-point logarithm, and only of the root; positions are unbounded where the C++ code uses `int`, which a tree of more than 30 levels would overflow.
- Chunking.ExprTree.Chunk: takes the tree its vector holds as a ghost argument; `HeapTree.RebuildExactly` says that every list without "N", which the parser never emits, has one if it can be rebuilt at all.
- SizeLimit.DeliveredWithinLimit: assumes fewer than 2^32 bytes since the last delivery, because the counter wraps (`WrapAroundAccepts` shows what happens then), and a limit that does not change; the server sets the limit before each read, to the same number unless it is reconfigured.
- PacketReader.PacketReader.CheckSz: adds the promised length and the header's length without wrapping, as a 64-bit `size_t` does.
- PacketReader.PacketReader.ReadPacket: the packet and the reader share one header object in C++; here the packet has its own, and the shared one is dropped at the next read.
- The URI, status code and phrase taken from the head line, and the current date: only the checks on the head line are modelled.
- AuthInfo.CredentialsRoundTrip: what `get_authinfo` answers for data without a colon depends on the width of the integers and is not modelled.
- XmlValues.ValueTypeToXml.Visit: builds each child list before it is attached, where the C++ code attaches an empty element first and fills it in place; nobody reads it in between.
- Doubles, date-times, charset conversion, the text form of XML with its character escapes, and method calls and faults around a value.
- Values of type base64 keep the text they were decoded from in C++ and print it again; here they are printed from their bytes.
- Structures and header options are kept in order by C++ containers; header options are modelled as a map that is listed in any order.
- Log and user-interface messages, other than the final results, and the choice of a server.
