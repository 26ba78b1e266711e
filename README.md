# Math-function example: plugin arithmetic and chat loop, in Dafny

This project models the two pieces of logic in the math-function example
of semantic-kernel-ollama-examples:

- **MyMathPlugin**: four kernel functions, `Add`, `Subtract`, `Multiply`
  and `Divide`, over C# `int`. Each is a single C# operator in the default
  unchecked context. So `+`, `-` and `*` wrap around modulo 2^32 into
  `[-2^31, 2^31)`. `/` rounds toward zero (section 12.10.3 of ECMA-334).
  .NET throws `DivideByZeroException` for a zero divisor and
  `OverflowException` for `int.MinValue / -1`.
- **The chat loop** in `Program.cs`. It reads a line, appends it to the
  history as a user message and asks the completion service for a
  streamed reply. It writes each chunk as it arrives, writing the
  "Assistant > " header before the first chunk that carries a role. It
  then appends the concatenated reply as an assistant message, and stops
  when the read returns null.

Files:

- `wrappers.dfy`: `Option` (C#'s null) and `Result` (a value or the
  exception thrown).
- `int32.dfy`: the `int32` subset type, `Wrap` (two's-complement
  reduction), congruence modulo 2^32 and its lemmas, and `TruncDiv`, which
  rounds toward zero. Dafny's `/` is Euclidean, so `TruncDiv` is defined
  from magnitudes and signs. Lemmas prove it is the unique quotient the C#
  standard prescribes, and that `MIN / -1` is the only int32 division
  whose quotient leaves the int32 range.
- `my_math_plugin.dfy`: the four functions as pure Dafny functions. The
  source class has no fields and only static single-expression methods, so
  the functions are deterministic and stateless by construction. `Divide`
  returns `Result<int32, ArithError>` and has no precondition.
- `program.dfy`: `ChatSession`, a class holding the `history` and the
  console `transcript`. `Turn` is one loop iteration; `Run` is the `while`
  loop. Specification functions (`Reply`, `StreamOutput`, `Conversation`,
  `ConversationOutput`) give what the methods must produce. Lemmas give
  what those functions mean.

The completion service is a parameter,
`service: seq<Message> -> seq<Chunk>`. It is applied to the history right
after the user message is appended, as at `Program.cs:45-49`. Console input
is the sequence of lines remaining. `ReadLine` gives null (`None`) once
they are used up. Console output is a sequence of events: `UserPrompt`,
`AssistantHeader`, `Text` and `EndLine`.

Two facts about the source shape the model:

- In .NET `int.MinValue / -1` throws `OverflowException`, so `Divide`
  returns `Failure(Overflow)` there.
- `Program.cs` catches no exception. A service failure propagates after
  line 45 has appended the user message. The model does not describe
  failed turns.

## Model

| member | source | states |
|---|---|---|
| `Int32.Wrap` | examples/math-function-example/Plugins/MyMathPlugin.cs:14 | the result is an int32 with the same low 32 bits as the exact value; it is the exact value when that fits, and is shifted by 2^32 when the value overflows by less than 2^32 |
| `Int32.TruncDiv` | examples/math-function-example/Plugins/MyMathPlugin.cs:41 | for b != 0 the quotient q satisfies a == q*b + r with abs(r) < abs(b) and r zero or of a's sign, and abs(q) <= abs(a) |
| `Int32.TruncatedQuotientUnique` | examples/math-function-example/Plugins/MyMathPlugin.cs:41 | any q meeting the truncated-division identity equals TruncDiv(a, b), so the rounding-toward-zero quotient is unique |
| `Int32.TruncDivOverflow` | examples/math-function-example/Plugins/MyMathPlugin.cs:41 | for int32 a and nonzero int32 b, the true quotient is outside the int32 range exactly when a == int.MinValue and b == -1 |
| `MyMathPlugin.Add` | examples/math-function-example/Plugins/MyMathPlugin.cs:9-15 | the result is an int32 congruent to number1 + number2 modulo 2^32; it is the exact sum when that fits, the sum minus 2^32 on positive overflow and the sum plus 2^32 on negative overflow |
| `MyMathPlugin.Subtract` | examples/math-function-example/Plugins/MyMathPlugin.cs:18-24 | the same for number1 - number2 |
| `MyMathPlugin.Multiply` | examples/math-function-example/Plugins/MyMathPlugin.cs:27-33 | the result is an int32 congruent to number1 * number2 modulo 2^32, and is the exact product when that fits |
| `MyMathPlugin.Divide` | examples/math-function-example/Plugins/MyMathPlugin.cs:35-42 | fails exactly when the divisor is 0 (DivideByZero) or the operands are int.MinValue and -1 (Overflow); otherwise returns the quotient rounded toward zero |
| `MyMathPlugin.DivideIsTruncDiv` | examples/math-function-example/Plugins/MyMathPlugin.cs:41 | for a nonzero divisor, a successful Divide returns TruncDiv(a, b), and a failing one is a case whose quotient does not fit an int32 |
| `MyMathPlugin.AddSubtractInverse` | examples/math-function-example/Plugins/MyMathPlugin.cs:14-23 | Add(Subtract(a, b), b) == a and Subtract(Add(a, b), b) == a for all int32, overflow included |
| `MyMathPlugin.AddCommutative` | examples/math-function-example/Plugins/MyMathPlugin.cs:14 | Add(a, b) == Add(b, a) |
| `MyMathPlugin.MultiplyCommutative` | examples/math-function-example/Plugins/MyMathPlugin.cs:32 | Multiply(a, b) == Multiply(b, a) |
| `MyMathPlugin.AddAssociative` | examples/math-function-example/Plugins/MyMathPlugin.cs:14 | Add(Add(a, b), c) == Add(a, Add(b, c)) under wrap-around |
| `MyMathPlugin.MultiplyDistributesOverAdd` | examples/math-function-example/Plugins/MyMathPlugin.cs:14-32 | Multiply(a, Add(b, c)) == Add(Multiply(a, b), Multiply(a, c)) under wrap-around |
| `Program.StreamTextIsReply` | examples/math-function-example/Program.cs:64-71 | the text written while a stream is consumed is exactly the reply appended to the history: the in-order concatenation of chunk contents, with a null content contributing "" |
| `Program.HeaderAtMostOnce` | examples/math-function-example/Program.cs:53-63 | a turn writes the header once if some chunk carries a role and never otherwise |
| `Program.HeaderAtFirstRole` | examples/math-function-example/Program.cs:56-63 | the header is written just before the text of the first chunk with a role, never before it, and these events form a prefix of the turn's whole stream output |
| `Program.ConversationShape` | examples/math-function-example/Program.cs:43-71 | n lines append exactly 2n messages. Message 2i is the user message holding line i. Message 2i+1 is the assistant message holding the reply to the history sent after line i was appended |
| `Program.ChatSession.constructor` | examples/math-function-example/Program.cs:35-40 | the history starts empty and the first "User > " prompt has been written |
| `Program.ChatSession.Turn` | examples/math-function-example/Program.cs:44-77 | appends the user message, then the assistant message carrying Reply of the stream requested for the history with the user message; the transcript gains StreamOutput of that stream, a line end and the next prompt; the loop invariants keep fullMessage as the reply so far and `first` as "no chunk with a role yet" |
| `Program.ChatSession.Run` | examples/math-function-example/Program.cs:42-78 | runs one turn per line until the read returns null; the history afterwards is the old history plus Conversation of the lines, and nothing more |

## Left out

- Kernel construction, plugin registration by reflection and the Ollama /
  OpenAI connector set-up (`Program.cs:11-24`): framework calls whose
  behaviour is not visible here. In particular, the tool registry's
  lookup by name and its argument checking live in the framework.
- The streaming request and automatic tool-call invocation
  (`Program.cs:26-32, 46-49`). The stream is a given finite chunk sequence
  computed from the history. The model assumes the service does not change
  the history it is given, and the framework's own tool-call entries are
  not modelled.
- ConversationShape: "exactly 2n messages" holds only when the framework
  adds nothing to `history`. With `AutoInvokeKernelFunctions` on
  (`Program.cs:31`), the framework may add its own tool-call entries during
  a turn, and the model does not include them.
- Run: "and nothing more" holds under the same condition as for
  ConversationShape.
- Asynchrony: `await foreach` is a sequential loop over the sequence.
- Console colours (`Program.cs:38-41, 58-61, 74-77`): the prompt and
  header are modelled as output events, not their colours.
- Exceptions thrown by the service mid-turn: the code does not catch them.
- Parameter description strings (`MyMathPlugin.cs:10-11, 37-38`): metadata
  only.
- A build with checked arithmetic (`CheckForOverflowUnderflow`): the model
  uses the default unchecked context.
