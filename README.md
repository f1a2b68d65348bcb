# Data-structure labs, modelled in Dafny

This project models the core of four Python labs and proves properties about them:

- **lab1**: a list-backed stack and an expression converter. The converter checks an arithmetic
  expression and converts it between infix, prefix and postfix notation.
- **lab2**: a list-backed stack, a circular-array queue that doubles when full and halves when a
  quarter full, and an iterative Towers of Hanoi solver built from three stacks and the queue.
- **lab3**: Huffman coding. It covers the tree node and its priority order, a min-priority queue,
  a generic binary tree and the Huffman tree built on it (construction, code map, `encode`,
  `decode`). It also covers the character counter and the parsing parts of the driver logic.
- **lab4**: in-place heap sort, and shell sort over a caller-given increment sequence.

Each Python file is one Dafny module:

| Dafny file | module | Python file |
|---|---|---|
| common.dfy | `Common` | the str methods, `int()`, `str()` and `sum()` the labs rely on |
| lab1_stack.dfy | `ExpressionStack` | lab1/stack.py |
| lab1_expression_converter.dfy | `ExpressionConverter` | lab1/expression_converter.py |
| lab2_stack.dfy | `PegStacks` | lab2/stack.py |
| lab2_queue.dfy | `CircularQueue` | lab2/queue_1.py |
| lab2_towers_of_hanoi.dfy | `Runs`, `Hanoi`, `HanoiGame` | lab2/towers_of_hanoi.py |
| lab3_node.dfy | `HuffmanNode` | lab3/node.py |
| lab3_priority_queue.dfy | `HuffmanQueue` | lab3/priority_queue.py |
| lab3_binary_tree.dfy | `BinaryTrees` | lab3/binary_tree.py |
| lab3_frequency_table_generator.dfy | `FrequencyTables` | lab3/frequency_table_generator.py |
| lab3_huffman_tree.dfy | `Huffman` | lab3/huffman_tree.py (`_build_tree`) |
| lab3_huffman_coding.dfy | `HuffmanCoding` | lab3/huffman_tree.py (code map, encode, decode, the class) |
| lab3_processing_logic.dfy | `ProcessingLogic` | lab3/processing_logic.py (argument and input parsing) |
| lab4_heap_sort.dfy | `HeapSort` | lab4/sorting/heap_sort.py |
| lab4_shell_sort.dfy | `ShellSort` | lab4/sorting/shell_sort.py |

The model follows the form of each Python file:

- **Classes become Dafny classes.** The stacks, the circular queue, the priority queue, the
  Huffman tree and the Towers of Hanoi game are classes whose methods update their fields. Each
  method is proved against a function or a value-level description: `Hanoi.Step` for a game
  turn, `HuffmanCoding.Codes` for the code map.
- **Sorts work in place.** Both sorts run on an `array<int>` and keep the loops of the source.
- **Pure code stays pure.** Recursive code and code that only computes (the converter's checks
  and scans, preorder, node counting, the decode walk, the parsers) is written as functions.
  Where the source has a loop, a method with the loop is proved equal to that function.
- **Exceptions are results.** A raised exception is an `Err` or `Fail` that carries its message,
  so error paths are part of each contract. A `None` return is an `Option`.

Where the docstrings and the code disagree, the model follows the code:

- `generate_frequency_table` upper-cases every character before counting, although its docstring
  says the count is case-sensitive.
- lab2's `Stack.peek` returns `None` on an empty stack, although its docstring says it raises.
- `postfix_to_prefix` and `postfix_to_infix` report errors as "Invalid prefix expression: ...".
  The model keeps those messages.
- Only the descriptions of disk 1's moves end with a full stop.
- `_move_smallest_disk` updates `smallest_disk_location` before it pops. On an empty peg the
  location has therefore already moved when `Empty` is raised.

## Model

| member | source | states |
|---|---|---|
| Common.Upper | lab3/frequency_table_generator.py:24 | upper-casing maps exactly the lower-case ASCII letters to upper case, leaves every other character alone, keeps letters letters, and never yields a lower-case letter |
| Common.UpperStr | lab3/processing_logic.py:92-101 | `str.upper()` keeps the length and upper-cases each character in place |
| ExpressionStack.Stack.constructor | lab1/stack.py:17-19 | a new stack is empty |
| ExpressionStack.Stack.Push | lab1/stack.py:27-32 | the item goes on top, everything below is unchanged, and the size grows by one |
| ExpressionStack.Stack.Pop | lab1/stack.py:41-52 | an empty stack gives Empty("stack is empty") and is unchanged; otherwise the top item is returned and removed, and the rest is unchanged |
| ExpressionStack.Stack.Peek | lab1/stack.py:62-65 | None exactly when the stack is empty, otherwise the top item |
| ExpressionStack.Stack.IsEmpty | lab1/stack.py:76-77 | empty exactly when the size is 0 |
| ExpressionStack.Stack.Size | lab1/stack.py:80-81 | the number of items held |
| ExpressionStack.PushThenPop | lab1/stack.py:27-52 | a pop right after a push returns the pushed item and restores the stack |
| ExpressionConverter.Precedence | lab1/expression_converter.py:271-280 | a precedence of 1 or more exactly for the five operators, -1 for anything else, and 3 (the highest) only for '^' |
| ExpressionConverter.Associativity | lab1/expression_converter.py:271-291 | None exactly for non-operators, right-associative exactly for '^' |
| ExpressionConverter.ValidateTokens | lab1/expression_converter.py:323-333 | passes exactly when every character is whitespace, a letter, an operator or a parenthesis; otherwise fails naming the first bad character |
| ExpressionConverter.CheckParentheses | lab1/expression_converter.py:347-357 | passes exactly when the parentheses balance; reports "Unmatched closing parenthesis" exactly when some prefix closes more than it opens, and "Unmatched opening parenthesis" otherwise |
| ExpressionConverter.RequireOperatorPresent | lab1/expression_converter.py:369-373 | passes exactly when the expression contains an operator |
| ExpressionConverter.CheckInfixOperatorSequence | lab1/expression_converter.py:387-399 | passes exactly when no operator is met while the previous significant character was an operator; otherwise fails at the first such operator |
| ExpressionConverter.FlagMeansOperator | lab1/expression_converter.py:387-399 | the `prev_was_operator` flag is set exactly when an operator occurs with no letter or parenthesis after it |
| ExpressionConverter.OperatorSequenceIff | lab1/expression_converter.py:387-399 | the operator-sequence check fails exactly when two operators occur with only whitespace or other non-resetting characters between them |
| ExpressionConverter.ValidateExpression | lab1/expression_converter.py:305-310 | passes exactly when the tokens are valid, the parentheses balance, an operator is present and, for infix input, no two operators are adjacent; otherwise fails with an InvalidExpressionError, the one the first failing check raises, naming its first offending character |
| ExpressionConverter.RefusalUnique | lab1/expression_converter.py:305-399 | the refusal is a single error: the order of the checks and the first offending character fix it |
| ExpressionConverter.Reverse | lab1/expression_converter.py:93 | `[::-1]` keeps the length and puts the i-th character from the end at position i |
| ExpressionConverter.ScanErrorSticks | lab1/expression_converter.py:105-117 | once the operand scan has raised, the characters after that point do not change the result |
| ExpressionConverter.ScanOperands | lab1/expression_converter.py:104-117 | the scanning loop with a Stack ends with exactly the stack, or raises exactly the error, that the scan function gives |
| ExpressionConverter.ScanOperand | lab1/expression_converter.py:106-117 | one character: a letter is pushed, an operator replaces the two top operands by their combination or raises "not enough operands", anything else is skipped |
| ExpressionConverter.ApplyOperator | lab1/expression_converter.py:114-117 | an operator pops the two top operands and pushes the string it builds from them, in the order of the scan direction |
| ExpressionConverter.MissingOperandExample | lab1/expression_converter.py:109-112 | the prefix expression "+a" is refused for lack of operands |
| ExpressionConverter.LeftoverExample | lab1/expression_converter.py:170-171 | "ab+c" leaves two operands, and postfix_to_prefix and postfix_to_infix refuse it with their leftover messages |
| ExpressionConverter.RunConversion | lab1/expression_converter.py:97-124 | an expression that fails the checks is refused with the first failing check's InvalidExpressionError; one that passes them gives the result of the scan followed by the single-item check |
| ExpressionConverter.PrefixToPostfix | lab1/expression_converter.py:97-124 | refuses invalid input with the first failing check's InvalidExpressionError; otherwise converts as the prefix-to-postfix scan does |
| ExpressionConverter.PostfixToPrefix | lab1/expression_converter.py:141-173 | refuses invalid input with the first failing check's InvalidExpressionError; otherwise converts as the postfix-to-prefix scan does |
| ExpressionConverter.PrefixToInfix | lab1/expression_converter.py:191-219 | refuses invalid input with the first failing check's InvalidExpressionError; otherwise converts as the prefix-to-infix scan does |
| ExpressionConverter.PostfixToInfix | lab1/expression_converter.py:237-264 | refuses invalid input with the first failing check's InvalidExpressionError; otherwise converts as the postfix-to-infix scan does |
| ExpressionConverter.ScanExpr | lab1/expression_converter.py:104-117 | scanning the prefix or postfix form of any expression pushes exactly its form in the target notation |
| ExpressionConverter.ConvertsExpr | lab1/expression_converter.py:97-124 | for each of the four operand-stack conversions, the source form of any expression with an operator passes the checks and converts to the target form of the same expression |
| ExpressionConverter.PrefixAgrees | lab1/expression_converter.py:97-219 | the letters of an expression's prefix form are its operands in order, and its operators are the expression's operators |
| ExpressionConverter.PostfixAgrees | lab1/expression_converter.py:141-264 | an expression's postfix form holds its operands in order and its operators |
| ExpressionConverter.InfixAgrees | lab1/expression_converter.py:191-264 | an expression's parenthesised infix form holds its operands in order and its operators |
| ExpressionConverter.FormsAgree | lab1/expression_converter.py:97-264 | for each conversion, the source and target forms of an expression have the same letters in the same order and the same operators |
| ExpressionConverter.ScanSkips | lab1/expression_converter.py:105-108 | characters that are neither letters nor operators do not change the scan: scanning the expression is scanning its letters and operators alone |
| ExpressionConverter.ScanSound | lab1/expression_converter.py:104-117 | every stack a successful scan leaves is the target forms of expressions whose source forms, in order, make up the scanned letters and operators |
| ExpressionConverter.ConvertSound | lab1/expression_converter.py:97-264 | every successful conversion is the conversion of an expression: the input's letters and operators are that expression's source form and the output is its target form |
| ExpressionConverter.ConvertComplete | lab1/expression_converter.py:97-264 | conversely, any input whose letters and operators are the source form of an expression converts to that expression's target form |
| ExpressionConverter.ConvertKeepsOperands | lab1/expression_converter.py:97-264 | a successful conversion keeps the operands in their order and keeps the operators, as a multiset |
| ExpressionConverter.ConvertSingle | lab1/expression_converter.py:121-124 | a scan that leaves exactly one operand returns it |
| ExpressionConverter.SourceValid | lab1/expression_converter.py:305-310 | the prefix and postfix forms of an expression with an operator pass every check |
| ExpressionConverter.PlainBalanced | lab1/expression_converter.py:347-357 | a string of letters and operators only passes the parenthesis check |
| ExpressionConverter.PopHigher | lab1/expression_converter.py:72-83 | the operator loop stops at an empty stack or at a top that does not bind tighter, and moves popped operators to the output in pop order |
| ExpressionConverter.PopUntilClose | lab1/expression_converter.py:67-68 | the '(' loop stops at an empty stack or a ')' on top, and moves popped operators to the output in pop order |
| ExpressionConverter.InfixErrorSticks | lab1/expression_converter.py:58-86 | once the infix scan has raised, the characters after that point do not change the result |
| ExpressionConverter.PushOperator | lab1/expression_converter.py:70-86 | pops what binds tighter, or as tight when the operator is right-associative, and then pushes the operator |
| ExpressionConverter.CloseGroup | lab1/expression_converter.py:65-69 | pops until a ')' is on top and discards it; raises Empty on an empty stack |
| ExpressionConverter.DrainOperators | lab1/expression_converter.py:89-90 | pops every remaining operator onto the output, top first, and leaves the stack empty |
| ExpressionConverter.ScanCharacter | lab1/expression_converter.py:59-86 | one character of the right-to-left scan has the effect the scan function gives it |
| ExpressionConverter.ConvertInfix | lab1/expression_converter.py:51-93 | the scan of the reversed expression, then the drain, then the reversal, give exactly the infix conversion function's result |
| ExpressionConverter.InfixToPrefix | lab1/expression_converter.py:49-93 | refuses an expression that fails the checks (including the operator-sequence check) with the first failing check's InvalidExpressionError; otherwise gives the infix conversion function's result |
| ExpressionConverter.InfixStepKeeps | lab1/expression_converter.py:58-86 | each character of the right-to-left scan keeps the output plus the reversed stack accounting for the letters scanned so far, in reverse order, and for the operators scanned |
| ExpressionConverter.InfixScanKeeps | lab1/expression_converter.py:58-86 | the whole scan keeps that account |
| ExpressionConverter.InfixKeepsOperands | lab1/expression_converter.py:49-93 | a successful infix-to-prefix conversion keeps the operands in their order and keeps the operators, as a multiset, whatever the parenthesisation |
| ExpressionConverter.InfixExpr | lab1/expression_converter.py:58-86 | scanning a fully parenthesised expression backwards appends its prefix form, backwards, to the output and leaves the operator stack as it was |
| ExpressionConverter.InfixBalanced | lab1/expression_converter.py:347-357 | the parentheses of a fully parenthesised expression balance |
| ExpressionConverter.InfixNoOperatorPairs | lab1/expression_converter.py:387-399 | a fully parenthesised expression never has two operators in a row |
| ExpressionConverter.InfixToPrefixExpr | lab1/expression_converter.py:49-93 | the fully parenthesised infix form of any expression with an operator passes the checks and converts to that expression's prefix form |
| ExpressionConverter.TwoOperators | lab1/expression_converter.py:70-86 | for x p y q z, precedence and associativity decide the grouping: x p (y q z) when q binds tighter, or as tight and p is right-associative; (x p y) q z otherwise |
| ExpressionConverter.GroupingExamples | lab1/expression_converter.py:271-275 | "a+b*c" becomes "+a*bc", "a^b^c" becomes "^a^bc" (right-associative) and "a-b-c" becomes "--abc" (left-associative) |
| PegStacks.Stack.constructor | lab2/stack.py:20-22 | a new stack is empty |
| PegStacks.Stack.Push | lab2/stack.py:25-43 | the item goes on top, everything below is unchanged, and the size grows by one |
| PegStacks.Stack.Pop | lab2/stack.py:46-67 | an empty stack gives Empty("stack is empty") and is unchanged; otherwise the top item is returned and removed |
| PegStacks.Stack.Peek | lab2/stack.py:70-82 | None exactly when the stack is empty (no exception), otherwise the top item |
| PegStacks.Stack.IsEmpty | lab2/stack.py:85-92 | empty exactly when the size is 0 |
| PegStacks.Stack.Size | lab2/stack.py:95-102 | the number of items held |
| PegStacks.PushPop | lab2/stack.py:25-67 | after a push, the top is the pushed item and what lies below it is the old stack |
| CircularQueue.SlotIsRemainder | lab2/queue_1.py:75 | for the indices the queue uses, `(front + size) % capacity` is the wrap-around slot of the item at that position |
| CircularQueue.SlotNext | lab2/queue_1.py:49 | `walk = (1 + walk) % len(old)` steps from one item's slot to the next item's slot |
| CircularQueue.SlotAfterFront | lab2/queue_1.py:96 | after the front advances, the i-th item sits where the (i+1)-th item was |
| CircularQueue.Queue.constructor | lab2/queue_1.py:22-26 | a new queue is empty over DEFAULT_CAPACITY (10) slots |
| CircularQueue.Queue.Resize | lab2/queue_1.py:28-52 | the items move in order to slots 0 .. size-1 of a new array of the requested capacity; the front becomes 0 and the contents are unchanged |
| CircularQueue.Queue.IsEmpty | lab2/queue_1.py:54-61 | empty exactly when the size is 0 |
| CircularQueue.Queue.Size | lab2/queue_1.py:120-127 | the number of items queued |
| CircularQueue.Queue.Enqueue | lab2/queue_1.py:63-77 | the item joins the back, the others keep their order, and a full array doubles first |
| CircularQueue.Queue.Dequeue | lab2/queue_1.py:79-104 | an empty queue gives Empty("Queue is empty"); otherwise the first item is returned and removed, and a queue left non-empty and under a quarter full halves its array |
| CircularQueue.Queue.First | lab2/queue_1.py:106-118 | Empty("Queue is empty") on an empty queue, otherwise the first item; nothing changes |
| Runs.RunKeeps | lab2/towers_of_hanoi.py:58-66 | a property every successful loop turn keeps holds after any number of successful turns |
| Runs.RunJoin | lab2/towers_of_hanoi.py:58-66 | a run of a turns followed by a run of b turns is a run of a + b turns |
| Hanoi.Tower | lab2/towers_of_hanoi.py:44-46 | the starting peg holds disks k, k-1, ..., 1 from the bottom up |
| Hanoi.Cycle | lab2/towers_of_hanoi.py:118-174 | disk 1 always moves to a different peg: source, target, aux in turn for an odd number of disks, source, aux, target for an even number |
| Hanoi.Others | lab2/towers_of_hanoi.py:75-85 | the two pegs named for the other move are distinct and neither holds disk 1 |
| Hanoi.Move | lab2/towers_of_hanoi.py:146-152 | a move fails with Empty exactly when its peg is empty; otherwise it moves the top disk to the other peg, leaves the third peg alone and records the move |
| Hanoi.OtherDirection | lab2/towers_of_hanoi.py:87-104 | the other move runs between two distinct pegs, neither of which holds disk 1 |
| Hanoi.OtherDirectionLegal | lab2/towers_of_hanoi.py:91-104 | the disk the other move carries lands on an empty peg or on a larger disk |
| Hanoi.Step | lab2/towers_of_hanoi.py:58-66 | a successful turn keeps the number of disks, raises the move counter by one and records one move |
| Hanoi.OddStep | lab2/towers_of_hanoi.py:59-61 | an odd-numbered turn is disk 1's move, followed by the counter increment |
| Hanoi.EvenStep | lab2/towers_of_hanoi.py:62-64 | an even-numbered turn is the other legal move, followed by the counter increment |
| Hanoi.DisksMove | lab2/towers_of_hanoi.py:146-148 | a move neither creates nor loses a disk |
| Hanoi.MoveKeepsOrder | lab2/towers_of_hanoi.py:146-148 | a move onto an empty peg or a larger disk keeps every peg in order and keeps the disks |
| Hanoi.SmallestKeepsOrder | lab2/towers_of_hanoi.py:110-123 | moving disk 1 keeps every peg in order, and disk 1 stays the smallest disk on top |
| Hanoi.OtherKeepsOrder | lab2/towers_of_hanoi.py:72-107 | the other legal move keeps every peg in order and keeps the disks |
| Hanoi.StepKeepsOrder | lab2/towers_of_hanoi.py:58-66 | no turn ever puts a larger disk on a smaller one, and no turn loses a disk |
| Hanoi.InitOrdered | lab2/towers_of_hanoi.py:36-46 | the starting position is in order |
| Hanoi.IterKeepsOrder | lab2/towers_of_hanoi.py:58-66 | after any number of successful turns the pegs are in order and hold the same disks |
| Hanoi.InitTowerOn | lab2/towers_of_hanoi.py:36-46 | at the start, n disks form a tower on the source peg with disk 1 on top, and the counter calls for a move of disk 1 |
| Hanoi.DestSource | lab2/towers_of_hanoi.py:118-123 | whatever the parity of n, the chosen cycle carries a tower of n disks from the source to the target |
| Hanoi.Macro | lab2/towers_of_hanoi.py:58-66 | from a tower of k disks topped by disk 1, 2^k - 1 turns move the tower to its destination without error and leave every other disk where it was |
| Hanoi.MacroBound | lab2/towers_of_hanoi.py:58 | before those 2^k - 1 turns end, every state is reached without error and the destination is not yet full |
| Hanoi.Solves | lab2/towers_of_hanoi.py:49-69 | 2^n - 1 turns (none for n <= 0) succeed, leaving disks n, ..., 1 on the target, the other pegs empty and one recorded move per turn |
| Hanoi.NotEarly | lab2/towers_of_hanoi.py:58 | before 2^n - 1 turns the target holds fewer than n disks, so the loop does not stop early |
| Hanoi.Finished | lab2/towers_of_hanoi.py:58 | within the first 2^n - 1 turns the target holds all n disks exactly at turn 2^n - 1, where the loop condition stops it |
| HanoiGame.Descriptions | lab2/towers_of_hanoi.py:97-181 | one description per move, in order |
| HanoiGame.TowersOfHanoi.constructor | lab2/towers_of_hanoi.py:32-46 | the new game is the starting position: disks n..1 on the source peg, disk 1 located there, counter at 1, no moves queued |
| HanoiGame.TowersOfHanoi.Transfer | lab2/towers_of_hanoi.py:147-148 | `disk = peg.pop(); dest.push(disk)` either raises Empty("stack is empty") and changes nothing, or moves the top disk to the destination peg and leaves the third peg alone |
| HanoiGame.TowersOfHanoi.MoveDisk | lab2/towers_of_hanoi.py:146-152 | the game's pegs and queue change exactly as the value-level move says, or Empty is raised with nothing changed |
| HanoiGame.TowersOfHanoi.MoveSmallestDisk | lab2/towers_of_hanoi.py:110-182 | disk 1's move has the effect the value-level model gives it; on failure only the recorded location of disk 1 has moved |
| HanoiGame.TowersOfHanoi.MakeOtherLegalMove | lab2/towers_of_hanoi.py:72-107 | the move made by peeking at both tops has the effect the value-level model gives it, or Empty is raised with nothing changed |
| HanoiGame.TowersOfHanoi.Turn | lab2/towers_of_hanoi.py:59-66 | one loop body takes the game to the value-level next state |
| HanoiGame.TowersOfHanoi.SolveIterative | lab2/towers_of_hanoi.py:49-69 | on a new game the loop stops after exactly 2^n - 1 moves with no peg ever found empty; the target then holds n..1, the other pegs are empty, and the returned queue holds every move's description |
| HuffmanNode.NewNode | lab3/node.py:32-47 | a new node carries the given symbol and weight and has no children |
| HuffmanNode.LessIsKeyOrder | lab3/node.py:50-78 | `__lt__` is the lexicographic order on (weight, single-letter before multi-letter, symbol) |
| HuffmanNode.LessAsymmetric | lab3/node.py:50-78 | `__lt__` is irreflexive and asymmetric |
| HuffmanNode.LessTransitive | lab3/node.py:50-78 | `__lt__` is transitive |
| HuffmanNode.LessTotal | lab3/node.py:50-78 | two nodes are ordered one way or the other unless they share weight and symbol |
| HuffmanNode.StrLessTotal | lab3/node.py:78 | Python's string `<` orders any two distinct strings one way only |
| HuffmanQueue.MinimumExists | lab3/priority_queue.py:48-58 | every non-empty queue holds a node that no other node precedes |
| HuffmanQueue.MinimumUnique | lab3/priority_queue.py:48-58 | any two minima have the same weight and symbol |
| HuffmanQueue.MinimumIsUnique | lab3/priority_queue.py:48-58 | when no two queued nodes share a symbol, the minimum is a single node, so `pop` has no choice to make |
| HuffmanQueue.PriorityQueue.constructor | lab3/priority_queue.py:27-29 | a new queue is empty |
| HuffmanQueue.PriorityQueue.Push | lab3/priority_queue.py:32-45 | adds exactly the node and nothing else |
| HuffmanQueue.PriorityQueue.Pop | lab3/priority_queue.py:48-58 | None on an empty queue; otherwise removes exactly one node, which no remaining node precedes |
| HuffmanQueue.PriorityQueue.IsEmpty | lab3/priority_queue.py:61-68 | empty exactly when the size is 0 |
| HuffmanQueue.PriorityQueue.Size | lab3/priority_queue.py:71-78 | the number of nodes held, 0 exactly when none are |
| HuffmanQueue.SortedMinimum | lab3/priority_queue.py:48-58 | in a strictly ascending sequence, each suffix's head is its unique minimum, and removing it leaves the next suffix |
| HuffmanQueue.DrainInOrder | lab3/priority_queue.py:48-58 | popping until empty hands out the nodes in ascending `__lt__` order |
| HuffmanQueue.TestScriptOrder | lab3/test.py:20-57 | the test script's eight nodes come out in the order A, B, J, V, Apple, MULTI, Zebra, Z that it expects |
| BinaryTrees.CountNodes | lab3/binary_tree.py:63-77 | the count is 0 exactly for an empty tree |
| BinaryTrees.MakeBinaryTree | lab3/binary_tree.py:6-19 | the cached size is the number of nodes the preorder visits |
| BinaryTrees.IsEmpty | lab3/binary_tree.py:35-45 | empty exactly when there is no root |
| BinaryTrees.Preorder | lab3/binary_tree.py:95-105 | a non-empty tree's preorder starts with its root |
| BinaryTrees.PreorderLength | lab3/binary_tree.py:80-105 | the preorder visits every node exactly once: its length is the node count, and it is empty exactly for an empty tree |
| BinaryTrees.LenIsPreorderLength | lab3/binary_tree.py:48-61 | `len` equals the preorder's length, and is 0 exactly when the tree is empty |
| BinaryTrees.PreorderSubtreeBlock | lab3/binary_tree.py:95-105 | each node in the preorder is followed directly by the rest of its own subtree, as one contiguous block |
| FrequencyTables.Count | lab3/frequency_table_generator.py:23-24 | a character count never exceeds the text's length |
| FrequencyTables.GenerateFrequencyTable | lab3/frequency_table_generator.py:6-26 | the counting loop builds exactly the table the character-by-character definition gives |
| FrequencyTables.FreqCounts | lab3/frequency_table_generator.py:21-26 | a key is present exactly when some character counts under it, and it maps to that number of characters |
| FrequencyTables.CountPositive | lab3/frequency_table_generator.py:23-24 | a key's count is positive exactly when some character of the text upper-cases to it |
| FrequencyTables.FreqWeight | lab3/frequency_table_generator.py:23-24 | every character is counted once: the counts add up to the text's length |
| FrequencyTables.CaseFolded | lab3/frequency_table_generator.py:24 | letters count under their upper-case form, so "a A" gives {"A": 2, " ": 1} |
| Huffman.SortChars | lab3/huffman_tree.py:78 | `"".join(sorted(...))` gives a sorted rearrangement of the same characters |
| Huffman.SortedUnique | lab3/huffman_tree.py:78 | only one sorted string has a given set of characters, so merged symbols are determined by their leaves |
| Huffman.Merge | lab3/huffman_tree.py:78-83 | the parent has the two nodes as children, their total weight and the sorted union of their symbols |
| Huffman.BuiltShape | lab3/huffman_tree.py:71-86 | a merged tree weighs what its leaves weigh, and n leaves give 2n - 1 nodes |
| Huffman.PushLeaves | lab3/huffman_tree.py:65-67 | the queue receives exactly one leaf per table entry; with single-character keys no character occurs in two queued trees |
| Huffman.MergeLowestTwo | lab3/huffman_tree.py:71-86 | the loop body pops a minimum, then a minimum of the rest, and pushes their merge; the queue loses one tree, its leaves, total weight and merge count stay accounted for, and no character comes to occur in two trees |
| Huffman.DisjointSymbols | lab3/huffman_tree.py:71-86 | trees that share no character have distinct symbols |
| Huffman.MergeKeepsDisjoint | lab3/huffman_tree.py:73-83 | merging two trees of a forest in which no character occurs twice gives such a forest again |
| Huffman.GreedyStep | lab3/huffman_tree.py:71-86 | with distinct symbols, popping the two minima and pushing their merge is the step of the greedy definition, whichever minimum heapq hands out |
| Huffman.GreedyLast | lab3/huffman_tree.py:88-93 | a queue of one tree is that tree |
| Huffman.MergeTrees | lab3/huffman_tree.py:73-86 | replacing two trees by their merge keeps the forest's leaves and weight and adds one node |
| Huffman.LastTree | lab3/huffman_tree.py:88-93 | the last tree left holds every table entry as a leaf, weighs the table's total, and has 2n - 1 nodes |
| Huffman.TakeRoot | lab3/huffman_tree.py:88-93 | the final pop gives None exactly for an empty table, and otherwise the root of a full tree over the table; the result is the greedy tree of the queue it started from |
| Huffman.BuildTree | lab3/huffman_tree.py:51-93 | the result is None exactly for an empty table; otherwise a full binary tree whose leaves are the table's entries, whose weight is the table's total, and which has 2 |table| - 1 nodes; with single-character keys it is the one tree the greedy order (lowest two first, ties broken by `__lt__`) determines |
| HuffmanCoding.Codes | lab3/huffman_tree.py:95-122 | the map the recursion writes: an empty tree writes nothing, and a leaf gets its path, or "0" when it is the root |
| HuffmanCoding.CodesKeys | lab3/huffman_tree.py:95-122 | every leaf symbol gets a code, and nothing else does |
| HuffmanCoding.CodePath | lab3/huffman_tree.py:108-122 | each code is a bit string that leads from the root to the leaf of its symbol |
| HuffmanCoding.CodesPrefixFree | lab3/huffman_tree.py:95-122 | no symbol's code is a prefix of another symbol's code |
| HuffmanCoding.Kept | lab3/huffman_tree.py:163-171 | the characters that encoding keeps are upper-case letters with a code, in order, and there are no more of them than characters in the text |
| HuffmanCoding.EncodeSnoc | lab3/huffman_tree.py:163-174 | encoding one more character appends that character's code, or nothing |
| HuffmanCoding.DecodeSpec | lab3/huffman_tree.py:187-188 | decoding with an empty tree gives "" |
| HuffmanCoding.DecodePath | lab3/huffman_tree.py:193-209 | reading a complete code emits its symbol and restarts at the root |
| HuffmanCoding.RoundTrip | lab3/huffman_tree.py:149-211 | for a tree of two or more leaves, decoding the encoding of any text gives back its coded letters, upper-cased, in order |
| HuffmanCoding.OneLeafDecode | lab3/huffman_tree.py:112-113 | with a single-leaf tree every code is "0", which walks off the tree, so decoding an encoding always gives "" |
| HuffmanCoding.LeafSymbolsOfTable | lab3/huffman_tree.py:65-67 | the leaf symbols of the built tree are the table's keys |
| HuffmanCoding.TreeOfTable | lab3/huffman_tree.py:43-49 | the built tree gives one code per table key, and its cached size is its preorder length |
| HuffmanCoding.Entries | lab3/huffman_tree.py:144-145 | one "symbol: weight" entry per node, in the same order |
| HuffmanCoding.HuffmanTree.constructor | lab3/huffman_tree.py:25-49 | an empty table gives an empty tree and map; otherwise a full tree over the table's entries with the table's total weight, a size of 2n - 1, and a code for each table key; with single-character keys the tree is the greedy tree of the table |
| HuffmanCoding.GreedyPair | lab3/huffman_tree.py:71-93 | two trees, minimum first, merge into the final root |
| HuffmanCoding.TieBreakExample | lab3/huffman_tree.py:71-86 | for {A: 1, B: 1, C: 2}, A and B merge first (the tie goes to A by symbol), then C, which ties with AB at weight 2 and comes first by `__lt__`'s single-letter rule, merges with AB, giving codes C = 0, A = 10, B = 11 |
| HuffmanCoding.HuffmanTree.BuildEncodingMapRecursive | lab3/huffman_tree.py:95-122 | adds exactly the entries of the recursive code definition to the map and leaves the tree alone |
| HuffmanCoding.HuffmanTree.GetEncodingMap | lab3/huffman_tree.py:124-131 | one code per leaf symbol, no code a prefix of another, and each code the path to its leaf (just "0" for a one-leaf tree) |
| HuffmanCoding.HuffmanTree.GetPreorderString | lab3/huffman_tree.py:133-147 | "" for an empty tree; otherwise the string starts with the root's "symbol: weight" entry |
| HuffmanCoding.HuffmanTree.Encode | lab3/huffman_tree.py:149-174 | the loop appends the codes of the letters that have one, upper-cased, in order, and skips everything else |
| HuffmanCoding.HuffmanTree.Decode | lab3/huffman_tree.py:176-211 | the loop gives exactly the walk of the decode definition from the root |
| ProcessingLogic.ParseCommandLineArgs | lab3/processing_logic.py:55-74 | ValueError("Invalid number of arguments.") exactly when there are fewer than 2 or more than 5 arguments |
| ProcessingLogic.ArgsThenDefaults | lab3/processing_logic.py:69-74 | the paths are the given arguments in their positions, followed by the defaults for the missing ones |
| ProcessingLogic.Strip | lab3/processing_logic.py:88 | the result neither starts nor ends with whitespace |
| ProcessingLogic.StripIsInnerBlock | lab3/processing_logic.py:88 | only whitespace is removed, and only from the two ends: the result is a block of the line with whitespace on both sides |
| ProcessingLogic.StripIdempotent | lab3/processing_logic.py:88 | stripping twice is stripping once |
| ProcessingLogic.Words | lab3/processing_logic.py:99 | `split()` gives non-empty words without whitespace |
| ProcessingLogic.WordsCoverText | lab3/processing_logic.py:99 | splitting loses exactly the whitespace: the words put back together are the line's non-whitespace characters |
| ProcessingLogic.ParseInputFile | lab3/processing_logic.py:76-107 | the loop over the lines gives the frequencies, phrases and codes the line-by-line parser definition gives |
| ProcessingLogic.RunAppend | lab3/processing_logic.py:87-105 | parsing two blocks of lines is parsing the first, then the second from where the first left off |
| ProcessingLogic.PreambleDropped | lab3/processing_logic.py:84-105 | lines before the first section header change nothing in the result |
| ProcessingLogic.ParsedWellFormed | lab3/processing_logic.py:87-105 | every frequency key is upper case, and every phrase and code is a stripped, non-blank line that is not a header |
| ProcessingLogic.LaterEntryWins | lab3/processing_logic.py:98-101 | in the frequency section, a later "letter count" line overwrites an earlier one for the same letter |
| ProcessingLogic.StepFrequency | lab3/processing_logic.py:98-101 | a two-word frequency line whose count is all digits sets exactly that one entry |
| HeapSort.HeapChildren | lab4/sorting/heap_sort.py:56-74 | in a max-heap every parent at i is at least its children at 2i+1 and 2i+2 |
| HeapSort.HeapMax | lab4/sorting/heap_sort.py:32-33 | the root of a max-heap is its largest element |
| HeapSort.SiftSwap | lab4/sorting/heap_sort.py:73-75 | swapping a node with its larger, larger-than-it child moves the only possible heap violation down to that child |
| HeapSort.SiftDone | lab4/sorting/heap_sort.py:76-78 | when the node is at least its larger child, the heap below the starting node is whole |
| HeapSort.SiftLeaf | lab4/sorting/heap_sort.py:59-62 | when the node has no child in range, the heap below the starting node is whole |
| HeapSort.PercolateDown | lab4/sorting/heap_sort.py:40-78 | if the heap holds below the node, afterwards it holds from the node on; the values are the same and nothing at or after the size bound moves |
| HeapSort.LeavesHeap | lab4/sorting/heap_sort.py:92-94 | nodes from n // 2 on have no children, so the heap property already holds from there |
| HeapSort.Heapify | lab4/sorting/heap_sort.py:81-98 | the whole array becomes a max-heap holding the same values |
| HeapSort.SwapRoot | lab4/sorting/heap_sort.py:33 | swapping the root to position i puts the heap's largest element at the front of the sorted tail |
| HeapSort.Repaired | lab4/sorting/heap_sort.py:37 | percolating the new root down restores the heap on the shrunk prefix for the next iteration |
| HeapSort.PhaseDone | lab4/sorting/heap_sort.py:30 | when the loop ends, the array is sorted |
| HeapSort.HeapSort | lab4/sorting/heap_sort.py:11-37 | the array ends sorted and a permutation of what it held; an array of 0 or 1 elements is unchanged |
| ShellSort.GapOneSorted | lab4/sorting/shell_sort.py:14-15 | an array sorted with gap 1 is sorted |
| ShellSort.HoleShift | lab4/sorting/shell_sort.py:41-46 | shifting a larger element up one gap moves the hole down one gap, and the hole's invariant still holds |
| ShellSort.HoleFill | lab4/sorting/shell_sort.py:49 | placing the current value in the hole leaves the prefix up to i gap-sorted, with the values it started with, and nothing after i moved |
| ShellSort.InsertInterleaved | lab4/sorting/shell_sort.py:36-49 | one outer iteration extends the gap-sorted prefix by one position, keeps the values, and moves nothing after i |
| ShellSort.InsertionSortInterleaved | lab4/sorting/shell_sort.py:19-49 | every interleaved sub-list ends sorted, the values are kept, and a gap at least the length changes nothing |
| ShellSort.ShellSort | lab4/sorting/shell_sort.py:1-15 | the array ends a permutation of its values, gap-sorted for the first increment and so sorted when that increment is 1; no increments change nothing |

## Left out

- File and console I/O are not modelled: `run_huffman_orchestrator`, `write_output_file`, `setup_decoding_tree`, `generate_tree_report`, `process_encoding_tasks` and `process_decoding_tasks` in lab3/processing_logic.py only print and write files. They also call `HuffmanTree()` without arguments, `construct_tree` and `get_indented_tree_string`, which lab3/huffman_tree.py does not define.
- ProcessingLogic.ParseInputFile takes the file's lines as a parameter. Opening and reading the file, and the `FileNotFoundError` that can raise, are not modelled.
- The `main.py`, `test.py`, `reporting.py` and `lab_runner.py` drivers are not modelled. The exception is lab3/test.py's expected pop order, which is proved as HuffmanQueue.TestScriptOrder.
- `Node.__repr__` is modelled only through the "symbol: weight" entry used by `get_preorder_string`.
- `BinaryTree.add` only raises `NotImplementedError` and is not modelled.
- `Node.parent` is never assigned by the program and is not modelled.
- The `BinaryTree.root` property is modelled as the `root` field it returns.
- Python's str methods (`isalpha`, `isspace`, `isdigit`, `upper`, `split`, `strip`) are modelled on ASCII only. Non-ASCII letters, and upper-case forms longer than one character, are not modelled.
- HuffmanQueue.PriorityQueue.Pop: heapq's list layout is not modelled. Pop returns some minimum under `Node.__lt__`. HuffmanQueue.MinimumUnique proves that all minima share weight and symbol, and HuffmanQueue.MinimumIsUnique that the minimum is a single node when the symbols are distinct.
- Huffman.BuildTree: the result is proved equal to the greedy tree only when every key is a single character, as the frequency counter produces. With a multi-character key such as "AB", a merged symbol can equal a key, two queued trees can tie on weight and symbol, and which of them heapq pops depends on its list layout.
- HuffmanCoding.HuffmanTree.constructor: determinism is stated only for single-character keys, for the same reason as Huffman.BuildTree.
- HanoiGame.TowersOfHanoi.SolveIterative requires a freshly constructed game (the only way the source calls it). On a game left part-way through, the model does not say what it does.
- HanoiGame.TowersOfHanoi.Turn requires that the turn succeeds. SolveIterative supplies that through Hanoi.NextTurn. The failure path of a single move is stated by MoveSmallestDisk and MakeOtherLegalMove.
- CircularQueue.Queue.Valid states where the items sit, but does not state that the other slots hold `None`.
- ShellSort.ShellSort takes increments as natural numbers. Negative gaps are not modelled.
- ShellSort.ShellSort does not prove that gap-sortedness for a larger gap survives later passes. Only the last pass's gap is stated.
- HeapSort.PercolateDown states what it writes (only positions below the size bound) but not what it reads. Its reads stay within the size bound by the guards at lines 61 and 66.
- Integers are unbounded, as in Python.
