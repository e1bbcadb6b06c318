# A verified model of the building-the-evm interpreter

This project models a small EVM bytecode interpreter written in TypeScript. The interpreter works on 256-bit words held as JavaScript `bigint`s.

The model covers the word helpers, the stack, arithmetic, bitwise and comparison handlers, the byte memory, the jump-destination scan, the opcode table and the interpreter loop. The stack is a `Stack` object whose `items` field is the JavaScript array, top last. Each handler is a module-level method that takes the `Stack` as a parameter, as the TypeScript handlers take the array, and each is proved against a pure function that computes the word it pushes. Memory is a Dafny `array` of bytes, specified by functions on the byte sequence. The interpreter loop is a `while` loop over `pc`, proved against a recursive function `Run` that describes a whole execution.

JavaScript `bigint` operators are written out explicitly in `JsBigInt`:
- `/` and `%` truncate toward zero (`JsDiv`, `JsRem`);
- `>>` is a floor division by a power of two;
- `<<` is a multiplication by a power of two;
- `&`, `|` and `^` are defined by recursion on the two operands.

## Files

| file | module | models |
|---|---|---|
| jsbigint.dfy | JsBigInt | the `bigint` operators the handlers use, and facts about powers of two and bits |
| bigint.dfy | Bigint | `MAX_UINT256`, `toSigned`, `toUnsigned` |
| bigendian.dfy | BigEndian | the big-endian byte layout shared by PUSHn, BYTE, MSTORE and MLOAD |
| stacks.dfy | Stacks | the stack array and the stack effect of a 1-, 2- or 3-operand handler |
| stackops.dfy | StackOps | PUSH0, PUSH1..PUSH32, POP |
| arithmetic.dfy | Arithmetic | ADD … SIGNEXTEND |
| bitwise.dfy | Bitwise | NOT … SAR |
| comparison.dfy | Comparison | LT … ISZERO |
| memory.dfy | Memory | expandMemory, MSTORE, MSTORE8, MLOAD, MSIZE |
| control.dfy | Control | PC, GAS, JUMPDEST, findValidJumpDests |
| registry.dfy | Registry | the `handlers` table |
| evm.dfy | Evm | the `evm` interpreter loop |

## Where the code differs from the EVM it builds toward

The model follows the code in each of these cases, not an idealised EVM:
- **Unknown bytes are skipped.** A fail-closed interpreter would stop on an unrecognised byte. In the code, a byte that is neither STOP, nor PUSH1..PUSH32, nor in the table moves `pc` on by one and changes nothing (`Evm.UnknownSkipped`).
- **A truncated PUSH throws.** The EVM reads missing PUSH immediate bytes as zero. In the code, a byte past the end reads as `undefined`, and `BigInt(undefined)` throws. `Evm.Run` returns `Threw` in that case (`Evm.TruncatedPushProgram`).
- **Only 19 opcodes are dispatched.** The table holds POP, PUSH0, the eleven arithmetic opcodes and the six comparisons. The bitwise, memory and control handlers exist but the loop never calls them, so they are modelled as separate methods.
- **No JUMP, JUMPI, DUP, SWAP or INVALID.** None of these exist in the code, so none is modelled. An INVALID byte (0xfe) is skipped like any other unknown byte.

## Model

| member | source | states |
|---|---|---|
| Bigint.ToSigned | src/utils/bigint.ts:6-9 | for a word, the result lies in [-2^255, 2^255) and is congruent to x modulo 2^256; words below 2^255 are unchanged |
| Bigint.ToUnsigned | src/utils/bigint.ts:12-15 | for an input in [-2^256, 2^256), the result is a word congruent to x; non-negative values are unchanged |
| Bigint.UnsignedOfSigned | src/utils/bigint.ts:6-15 | toUnsigned(toSigned(x)) == x for every word |
| Bigint.SignedOfUnsigned | src/utils/bigint.ts:6-15 | toSigned(toUnsigned(y)) == y for every y in [-2^255, 2^255) |
| Bigint.SignedNegative | src/utils/bigint.ts:6-9 | toSigned(x) is negative exactly when x >= 2^255 |
| JsBigInt.JsDiv | src/opcodes/arithmetic.ts:40 | the truncated quotient is no larger in magnitude than the dividend and equals floor division for non-negative operands |
| JsBigInt.JsRem | src/opcodes/arithmetic.ts:59 | the remainder is smaller in magnitude than the divisor, has the sign of the dividend, and is the ordinary remainder for a non-negative dividend |
| JsBigInt.JsDivRem | src/opcodes/arithmetic.ts:40 | the truncated quotient and remainder recompose the dividend: a == q*b + r |
| JsBigInt.Pow | src/opcodes/arithmetic.ts:84 | `a ** b` of a non-negative base is non-negative, of a positive base at least 1, and of base 0 with b > 0 equal to 0 |
| JsBigInt.ShiftRight | src/opcodes/bitwise.ts:61 | `x >> s` of a non-negative x lies between 0 and x |
| JsBigInt.ShiftLeft | src/opcodes/bitwise.ts:50 | `x << s` of a non-negative x is non-negative |
| JsBigInt.BitAnd | src/opcodes/bitwise.ts:15 | `&` on non-negative operands, defined bit by bit by recursion on both operands; its meaning is stated in BitAndAt, BitOpsBound, BitOpsMagnitude and BitOpsCommute |
| JsBigInt.BitOr | src/opcodes/bitwise.ts:22 | `\|` on non-negative operands, defined bit by bit by recursion on both operands; its meaning is stated in BitOrAt, BitOpsBound, BitOpsMagnitude and BitOpsCommute |
| JsBigInt.BitXor | src/opcodes/bitwise.ts:29 | `^` on non-negative operands, defined bit by bit by recursion on both operands; its meaning is stated in BitXorAt, BitOpsBound, BitOpsMagnitude and BitOpsCommute |
| JsBigInt.BitAndAt | src/opcodes/bitwise.ts:15 | bit i of a & b is the product of bit i of a and bit i of b |
| JsBigInt.BitOrAt | src/opcodes/bitwise.ts:22 | bit i of a \| b is 1 exactly when bit i of a or of b is 1 |
| JsBigInt.BitXorAt | src/opcodes/bitwise.ts:29 | bit i of a ^ b is 1 exactly when the two bits differ |
| JsBigInt.BitOpsBound | src/opcodes/bitwise.ts:12-30 | &, \| and ^ of operands below 2^n stay below 2^n |
| JsBigInt.BitOpsMagnitude | src/opcodes/bitwise.ts:12-30 | a & b is at most either operand; a \| b is at least either operand and at most a + b; a ^ b is at most a + b and is 0 exactly when a == b |
| JsBigInt.BitOpsCommute | src/opcodes/bitwise.ts:12-30 | &, \| and ^ are commutative |
| JsBigInt.BitsEqual | src/opcodes/bitwise.ts:12-30 | two numbers with the same bit at every position are equal |
| JsBigInt.BitAndLowMask | src/opcodes/arithmetic.ts:97-98 | x & (2^n - 1) == x mod 2^n |
| JsBigInt.BitOrHighMask | src/opcodes/arithmetic.ts:100-102 | OR-ing bits j..n-1 into x < 2^n gives 2^n - 2^j + x mod 2^j |
| JsBigInt.BitOrLow | src/opcodes/stack.ts:12 | OR-ing a value below 2^n into a multiple of 2^n adds it |
| BigEndian.Value | src/opcodes/stack.ts:10-13 | the big-endian value of n bytes is below 2^(8n) |
| BigEndian.AccumulateByte | src/opcodes/stack.ts:12 | one step `(value << 8n) \| byte` of the accumulation extends the value by the next byte |
| BigEndian.AccumulatePrefix | src/opcodes/memory.ts:43 | one loop step turns the value of the first i bytes into the value of the first i + 1 |
| BigEndian.Encode | src/opcodes/memory.ts:22-24 | the n-byte big-endian encoding has length n |
| BigEndian.ValueOfEncode | src/opcodes/memory.ts:22-24 | decoding the n-byte encoding of v < 2^(8n) gives back v |
| BigEndian.EncodeOfValue | src/opcodes/stack.ts:10-13 | encoding the value of a byte string gives back the string |
| BigEndian.EncodeAt | src/opcodes/memory.ts:23 | byte i of the encoding is (v / 2^(8(n-1-i))) mod 256 |
| Stacks.Stack.constructor | src/evm.ts:10 | a new stack is empty |
| Stacks.Stack.Push | src/opcodes/stack.ts:5 | push appends exactly one word |
| Stacks.Stack.Pop | src/opcodes/stack.ts:20 | pop removes the last word and returns it |
| Stacks.Stack.Reverse | src/evm.ts:19 | reverse leaves the old items in reverse order |
| Stacks.Reversed | src/evm.ts:19 | same length, and element i is element n-1-i of the input |
| Stacks.BinaryFrame | src/opcodes/comparison.ts:6-38 | a two-operand handler shrinks the stack by one, keeps every word below its operands and puts f(top, second) on top |
| Stacks.UnaryFrame | src/opcodes/comparison.ts:41-44 | a one-operand handler keeps the length and the words below and puts f(top) on top |
| StackOps.Push0 | src/opcodes/stack.ts:4-6 | exactly one 0 is appended |
| StackOps.PushN | src/opcodes/stack.ts:9-16 | returns pc + n and appends the big-endian value of code[pc..pc+n), for pc + n within the code |
| StackOps.Pop | src/opcodes/stack.ts:19-21 | exactly the last word is removed |
| StackOps.PushedValueBound | src/opcodes/stack.ts:10-14 | the pushed value is below 256^n, hence a word for n <= 32 |
| StackOps.Push1Value | src/opcodes/stack.ts:10-14 | PUSH1 pushes its immediate byte itself |
| StackOps.PushedValueEncodes | src/opcodes/stack.ts:10-14 | the n-byte encoding of the pushed value is the immediate itself |
| Arithmetic.Add | src/opcodes/arithmetic.ts:6-10 | a + b, less 2^256 when the sum reaches 2^256 |
| Arithmetic.Mul | src/opcodes/arithmetic.ts:13-17 | congruent to a*b modulo 2^256 and equal to it when it fits |
| Arithmetic.Sub | src/opcodes/arithmetic.ts:20-24 | a - b, plus 2^256 when b > a, where a is the top |
| Arithmetic.Div | src/opcodes/arithmetic.ts:27-31 | 0 for b = 0; otherwise r*b <= a < (r+1)*b; never above a |
| Arithmetic.Mod | src/opcodes/arithmetic.ts:46-50 | 0 for b = 0; otherwise r < b and a == Div(a,b)*b + r; never above a |
| Arithmetic.SDiv | src/opcodes/arithmetic.ts:34-43 | 0 for a zero divisor; otherwise congruent modulo 2^256 to the truncated quotient of the signed operands |
| Arithmetic.SMod | src/opcodes/arithmetic.ts:53-62 | 0 for a zero divisor; otherwise its signed reading is the truncated remainder of the signed operands |
| Arithmetic.AddMod | src/opcodes/arithmetic.ts:65-71 | 0 for N = 0; otherwise (a + b) mod N on the exact sum, below N |
| Arithmetic.MulMod | src/opcodes/arithmetic.ts:72-78 | 0 for N = 0; otherwise (a * b) mod N on the exact product, below N |
| Arithmetic.Exp | src/opcodes/arithmetic.ts:81-85 | the exact power a^b reduced mod 2^256; its recurrence through MUL is `Arithmetic.ExpStep` |
| Arithmetic.SignExtend | src/opcodes/arithmetic.ts:88-105 | k >= 31 leaves x unchanged |
| Arithmetic.AddCommutes | src/opcodes/arithmetic.ts:6-10 | ADD is commutative |
| Arithmetic.SubAddInverse | src/opcodes/arithmetic.ts:6-24 | SUB undoes ADD and ADD undoes SUB, so (SUB(a,b) + b) mod 2^256 == a |
| Arithmetic.SDivSigned | src/opcodes/arithmetic.ts:34-43 | apart from -2^255 / -1, the signed reading of SDIV is exactly the truncated signed quotient |
| Arithmetic.SDivOverflow | src/opcodes/arithmetic.ts:34-43 | SDIV(2^255, 2^256-1) == 2^255 |
| Arithmetic.SDivSModRecompose | src/opcodes/arithmetic.ts:34-62 | for a non-zero divisor other than the pair -2^255 / -1, signed quotient times divisor plus signed remainder is the signed dividend |
| Arithmetic.AddModFullPrecision | src/opcodes/arithmetic.ts:65-71 | the sum is not wrapped before the modulo: ADDMOD(2^256-1, 2, 3) == 2 while ADD then mod 3 gives 1 |
| Arithmetic.MulModFullPrecision | src/opcodes/arithmetic.ts:72-78 | the product is not wrapped before the modulo: MULMOD(2^255, 2, 3) == 1 while MUL then mod 3 gives 0 |
| Arithmetic.ExpStep | src/opcodes/arithmetic.ts:81-85 | EXP(a, 0) == 1 and EXP(a, b+1) == MUL(a, EXP(a, b)) |
| Arithmetic.SignExtendBits | src/opcodes/arithmetic.ts:91-102 | for k < 31: sign bit 0 gives x mod 2^(8k+8); sign bit 1 gives 2^256 - 2^(8k+8) + x mod 2^(8k+8) |
| Arithmetic.SignBit | src/opcodes/arithmetic.ts:95 | `(x >> p) & 1` is bit p of x |
| Arithmetic.SignExtendSigned | src/opcodes/arithmetic.ts:91-102 | for k < 31 the signed result lies in [-2^(8k+7), 2^(8k+7)) and agrees with x modulo 2^(8k+8) |
| Arithmetic.SignExtendAllOnes | src/opcodes/arithmetic.ts:91-102 | SIGNEXTEND(0, 0xFF) == 2^256 - 1 |
| Arithmetic.AddOp | src/opcodes/arithmetic.ts:6-10 | the stack after ADD is the old stack with its top two words replaced by Add(top, second) |
| Arithmetic.MulOp | src/opcodes/arithmetic.ts:13-17 | as AddOp, with Mul |
| Arithmetic.SubOp | src/opcodes/arithmetic.ts:20-24 | as AddOp, with Sub |
| Arithmetic.DivOp | src/opcodes/arithmetic.ts:27-31 | as AddOp, with Div |
| Arithmetic.SDivOp | src/opcodes/arithmetic.ts:34-43 | as AddOp, with SDiv |
| Arithmetic.ModOp | src/opcodes/arithmetic.ts:46-50 | as AddOp, with Mod |
| Arithmetic.SModOp | src/opcodes/arithmetic.ts:53-62 | as AddOp, with SMod |
| Arithmetic.AddModOp | src/opcodes/arithmetic.ts:65-71 | the top three words are replaced by AddMod(a, b, N) |
| Arithmetic.MulModOp | src/opcodes/arithmetic.ts:72-78 | the top three words are replaced by MulMod(a, b, N) |
| Arithmetic.ExpOp | src/opcodes/arithmetic.ts:81-85 | as AddOp, with Exp |
| Arithmetic.SignExtendOp | src/opcodes/arithmetic.ts:88-105 | as AddOp, with SignExtend(k, x) |
| Bitwise.Not | src/opcodes/bitwise.ts:6-9 | r + a == 2^256 - 1 |
| Bitwise.And | src/opcodes/bitwise.ts:12-16 | the AND of two words never exceeds either of them |
| Bitwise.Or | src/opcodes/bitwise.ts:19-23 | the OR of two words is at least either of them and at most their sum |
| Bitwise.Xor | src/opcodes/bitwise.ts:26-30 | the XOR of two words is 0 exactly when they are equal, and at most their sum |
| Bitwise.WordBits | src/opcodes/bitwise.ts:12-30 | AND, OR and XOR of two words are words |
| Bitwise.Byte | src/opcodes/bitwise.ts:33-41 | below 256; 0 for i >= 32; otherwise byte i of the 32-byte big-endian encoding of x |
| Bitwise.ByteOfWord | src/opcodes/bitwise.ts:39 | `(x >> (248 - 8i)) & 0xff` is byte i of the big-endian encoding, counted from the most significant end |
| Bitwise.Shl | src/opcodes/bitwise.ts:44-52 | 0 for a shift of 256 or more |
| Bitwise.Shr | src/opcodes/bitwise.ts:55-63 | 0 for a shift of 256 or more, and never above value |
| Bitwise.Sar | src/opcodes/bitwise.ts:66-76 | a shift of 256 or more gives 2^256 - 1 for a negative value and 0 otherwise |
| Bitwise.FloorDivRange | src/opcodes/bitwise.ts:74 | floor division of a signed word by a positive number stays in the signed range |
| Bitwise.NotBits | src/opcodes/bitwise.ts:6-9 | NOT flips each of the 256 bits |
| Bitwise.NotNot | src/opcodes/bitwise.ts:6-9 | NOT is an involution |
| Bitwise.BitwiseAt | src/opcodes/bitwise.ts:12-30 | bit i of AND, OR and XOR is the AND, OR and XOR of the operand bits |
| Bitwise.BitwiseCommute | src/opcodes/bitwise.ts:12-30 | AND, OR and XOR are commutative |
| Bitwise.XorInverse | src/opcodes/bitwise.ts:26-30 | XOR(a, XOR(a, b)) == b |
| Bitwise.AndNot | src/opcodes/bitwise.ts:6-16 | AND(a, NOT(a)) == 0 |
| Bitwise.BytesOfWord | src/opcodes/bitwise.ts:33-41 | the 32 bytes BYTE(0..31, x) read big-endian give back x |
| Bitwise.ShlIsMul | src/opcodes/bitwise.ts:44-52 | for shift < 256, SHL is MUL by 2^shift |
| Bitwise.ShrIsDiv | src/opcodes/bitwise.ts:55-63 | for shift < 256, SHR is DIV by 2^shift |
| Bitwise.ShlShr | src/opcodes/bitwise.ts:44-63 | SHR(s, SHL(s, v)) == v mod 2^(256-s): the bits shifted out are lost |
| Bitwise.SarFloor | src/opcodes/bitwise.ts:66-76 | the signed reading of SAR is the floor of the signed value divided by 2^min(shift, 256) |
| Bitwise.SarOfNonNegative | src/opcodes/bitwise.ts:69-74 | for value < 2^255, SAR equals SHR |
| Bitwise.SarNegative | src/opcodes/bitwise.ts:66-76 | for value >= 2^255, SAR stays negative |
| Bitwise.NotOp | src/opcodes/bitwise.ts:6-9 | the top word is replaced by Not(top) |
| Bitwise.AndOp | src/opcodes/bitwise.ts:12-16 | the top two words are replaced by And(top, second) |
| Bitwise.OrOp | src/opcodes/bitwise.ts:19-23 | the top two words are replaced by Or(top, second) |
| Bitwise.XorOp | src/opcodes/bitwise.ts:26-30 | the top two words are replaced by Xor(top, second) |
| Bitwise.ByteOp | src/opcodes/bitwise.ts:33-41 | the top two words are replaced by Byte(i, x) |
| Bitwise.ShlOp | src/opcodes/bitwise.ts:44-52 | the top two words are replaced by Shl(shift, value) |
| Bitwise.ShrOp | src/opcodes/bitwise.ts:55-63 | the top two words are replaced by Shr(shift, value) |
| Bitwise.SarOp | src/opcodes/bitwise.ts:66-76 | the top two words are replaced by Sar(shift, value) |
| Comparison.Flag | src/opcodes/comparison.ts:9 | 1 exactly when the condition holds, else 0 |
| Comparison.Lt | src/opcodes/comparison.ts:6-10 | 0 or 1, and 1 exactly when a < b unsigned |
| Comparison.Gt | src/opcodes/comparison.ts:13-17 | 0 or 1, and 1 exactly when a > b unsigned |
| Comparison.Slt | src/opcodes/comparison.ts:20-24 | 0 or 1, and 1 exactly when toSigned(a) < toSigned(b) |
| Comparison.Sgt | src/opcodes/comparison.ts:27-31 | 0 or 1, and 1 exactly when toSigned(a) > toSigned(b) |
| Comparison.Eq | src/opcodes/comparison.ts:34-38 | 0 or 1, and 1 exactly when a == b |
| Comparison.IsZero | src/opcodes/comparison.ts:41-44 | 0 or 1, and 1 exactly when a == 0 |
| Comparison.Trichotomy | src/opcodes/comparison.ts:6-38 | exactly one of LT, EQ, GT holds, and exactly one of SLT, EQ, SGT |
| Comparison.Swapped | src/opcodes/comparison.ts:6-31 | GT(a, b) == LT(b, a) and SGT(a, b) == SLT(b, a) |
| Comparison.IsZeroIsEq | src/opcodes/comparison.ts:34-44 | ISZERO(a) == EQ(a, 0) |
| Comparison.SignedOrder | src/opcodes/comparison.ts:6-24 | SLT agrees with LT on same-sign operands and reverses it across the sign boundary, in both orders |
| Comparison.MinusOneOrder | src/opcodes/comparison.ts:6-24 | SLT(2^256-1, 0) == 1 while LT(2^256-1, 0) == 0 |
| Comparison.LtOp | src/opcodes/comparison.ts:6-10 | the top two words are replaced by Lt(top, second) |
| Comparison.GtOp | src/opcodes/comparison.ts:13-17 | the top two words are replaced by Gt(top, second) |
| Comparison.SltOp | src/opcodes/comparison.ts:20-24 | the top two words are replaced by Slt(top, second) |
| Comparison.SgtOp | src/opcodes/comparison.ts:27-31 | the top two words are replaced by Sgt(top, second) |
| Comparison.EqOp | src/opcodes/comparison.ts:34-38 | the top two words are replaced by Eq(top, second) |
| Comparison.IsZeroOp | src/opcodes/comparison.ts:41-44 | the top word is replaced by IsZero(top) |
| Memory.RoundUp32 | src/opcodes/memory.ts:7 | `Math.ceil(n / 32) * 32` is the least multiple of 32 that is at least n |
| Memory.Expanded | src/opcodes/memory.ts:4-14 | size 0 gives the memory unchanged; otherwise the length is max(old, ceil((offset+size)/32)*32); the old bytes are kept, new bytes are 0, and a 32-multiple length stays one |
| Memory.Write | src/opcodes/memory.ts:22-24 | the bytes from offset are replaced and every other byte is kept |
| Memory.ExpandMemory | src/opcodes/memory.ts:4-14 | returns the same array for size 0 or when ceil((offset+size)/32)*32 fits in it, and a fresh array otherwise; its contents are Expanded of the old contents |
| Memory.MStore | src/opcodes/memory.ts:17-26 | pops two words; the returned memory is the grown memory with the 32-byte big-endian encoding of value at offset; it is the caller's array when no growth is needed, and when a fresh array is returned the caller's array keeps its bytes |
| Memory.MStore8 | src/opcodes/memory.ts:29-35 | pops two words; the returned memory is the grown memory with byte offset set to value mod 256; it is the caller's array when no growth is needed, and when a fresh array is returned the caller's array keeps its bytes |
| Memory.LowByte | src/opcodes/memory.ts:33 | `value & 0xff` is value mod 256 |
| Memory.MLoad | src/opcodes/memory.ts:38-47 | grows the memory without changing its bytes and replaces the top word with the 32-byte big-endian word at offset; the caller's array comes back when no growth is needed, a fresh one otherwise |
| Memory.MSize | src/opcodes/memory.ts:50-52 | pushes the memory length |
| Memory.LoadAfterStore | src/opcodes/memory.ts:17-47 | MLOAD at the offset of an MSTORE needs no growth and reads the stored word back |
| Memory.StoreWordFrame | src/opcodes/memory.ts:22-24 | MSTORE changes no byte outside offset..offset+31 |
| Memory.StoreByteFrame | src/opcodes/memory.ts:30-34 | MSTORE8 sets byte offset to v mod 256 and changes no other byte |
| Memory.ExpandedCovered | src/opcodes/memory.ts:8-13 | growing 32-multiple memory that already covers the region changes nothing |
| Memory.StoreAt64 | src/opcodes/memory.ts:7 | on empty memory, MSTORE of any word at 64 makes the length 96 |
| Control.Pc | src/opcodes/control.ts:6-8 | pushes currentPc and nothing else |
| Control.Gas | src/opcodes/control.ts:11-13 | pushes 2^256 - 1 and nothing else |
| Control.JumpDest | src/opcodes/control.ts:16-18 | leaves the stack and the memory as they were |
| Control.Next | src/opcodes/control.ts:31-34 | the next instruction starts one byte on, or n + 1 bytes on after PUSHn |
| Control.Boundaries | src/opcodes/control.ts:23-35 | every instruction start lies in the code |
| Control.JumpDests | src/opcodes/control.ts:21-37 | every recorded offset is below the code length and holds 0x5b |
| Control.FindValidJumpDests | src/opcodes/control.ts:21-37 | the while loop returns exactly the JUMPDEST bytes at instruction starts |
| Control.PushDataNotBoundary | src/opcodes/control.ts:31-34 | no byte inside a PUSH immediate is an instruction start |
| Control.PushDataNotDest | src/opcodes/control.ts:31-34 | no offset inside a PUSH immediate is a destination, even when it holds 0x5b |
| Control.PushFreeBoundaries | src/opcodes/control.ts:24-35 | without PUSH bytes, every offset is an instruction start |
| Control.PushFreeDests | src/opcodes/control.ts:24-35 | without PUSH bytes, the destinations are exactly the offsets holding 0x5b |
| Control.DestsExample | src/opcodes/control.ts:21-37 | for PUSH1 0x5b JUMPDEST only offset 2 is a destination |
| Registry.Apply | src/opcodes/index.ts:12-37 | a handler's result stack has length old - pops + pushes and keeps every word below its operands |
| Registry.Invoke | src/evm.ts:35 | calling an entry's handler leaves the stack Apply describes |
| Registry.Handlers | src/opcodes/index.ts:12-37 | there is an entry exactly for the 19 registered bytes (POP, PUSH0, 0x01..0x0b, 0x10..0x15), and each entry's minStack is the number of words its handler pops |
| Registry.MinStackValues | src/opcodes/index.ts:14-36 | minStack is 3 for ADDMOD and MULMOD, 1 for POP and ISZERO, 0 for PUSH0 and 2 elsewhere |
| Registry.DepthAfterHandler | src/opcodes/index.ts:12-37 | after a handler the depth is old - minStack + 1, except old - 1 for POP |
| Evm.StepAt | src/evm.ts:14-39 | a continuing instruction moves pc forward within the code and adds at most one word per byte it occupies; a failure has an empty stack; it throws exactly at a PUSHn whose immediate runs past the end of the code |
| Evm.Run | src/evm.ts:13-42 | a whole run from pc throws only if some PUSHn at or after pc has its immediate cut off by the end of the code |
| Evm.Evm | src/evm.ts:6-43 | the loop returns what Run describes for pc 0 and an empty stack, and terminates |
| Evm.ExecuteStep | src/evm.ts:14-37 | one loop iteration halts with, or continues to, exactly what StepAt describes |
| Evm.FailureHasEmptyStack | src/evm.ts:32-34 | every failed run returns an empty stack |
| Evm.StackBound | src/evm.ts:13-42 | a run returns at most one word per remaining code byte on top of its starting stack |
| Evm.StopReturns | src/evm.ts:18-20 | STOP returns success and the stack reversed |
| Evm.EndReturns | src/evm.ts:42 | running off the end returns success and the stack reversed |
| Evm.PushStep | src/evm.ts:23-26 | PUSHn advances pc by n + 1 and pushes the big-endian immediate |
| Evm.Push1Step | src/evm.ts:23-26 | PUSH1 advances pc by 2 and pushes its immediate byte |
| Evm.HandlerStep | src/evm.ts:30-36 | a table byte with enough words on the stack runs its handler and moves on one byte |
| Evm.UnknownSkipped | src/evm.ts:30-39 | a byte that is not STOP, not PUSHn and not in the table changes nothing |
| Evm.Underflow | src/evm.ts:31-34 | a table byte with too few words ends the run with failure and an empty stack |
| Evm.StopAtStart | src/evm.ts:18-20 | STOP at pc 0 returns success with an empty stack |
| Evm.BinaryProgram | src/evm.ts:13-36 | PUSH1 x, PUSH1 y, op, STOP returns the handler's result on [x, y], reversed |
| Evm.AddProgram | src/evm.ts:13-36 | PUSH1 1, PUSH1 2, ADD, STOP returns success and [3] |
| Evm.DivByZeroProgram | src/evm.ts:13-36 | PUSH1 0, PUSH1 0, DIV, STOP returns success and [0] |
| Evm.UnderflowProgram | src/evm.ts:31-34 | ADD on an empty stack returns failure and [] |
| Evm.TruncatedPushProgram | src/evm.ts:23-26 | PUSH2 with one immediate byte throws |
| Evm.NotIsSkipped | src/evm.ts:30-39 | NOT is not in the table, so PUSH1 5, NOT returns [5] |

## Left out

- SHA3 (src/opcodes/system.ts) is not part of this model. Its result comes from the foreign `js-sha3` keccak256.
- The `Number(...)` conversion of offsets and the floating-point `Math.ceil` are not modelled. Offsets are `nat` and the rounding is exact, so precision loss and allocation failure for huge offsets are out of scope.
- Gas metering, storage, calls, logs and execution context do not exist in the code and are not modelled.
- JUMP, JUMPI, DUP, SWAP and INVALID do not exist in the code and are not modelled. The loop's dispatch of the bitwise, memory and control handlers is left out for the same reason: the loop never calls them.
- The code is a byte sequence the model only reads, rather than a `Uint8Array` object.
- Stack words are `Word` (below 2^256), not arbitrary `bigint`s. Every value a handler pushes is such a word, as the contracts above show.
- StackOps.PushN: requires n <= 32, which only PUSH1..PUSH32 meet, and pc + n within the code. For a shorter code the source's `BigInt(undefined)` throws, and that path is modelled in `Evm.StepAt` as `Threw`.
- Control.Pc: requires currentPc < 2^256 so that the pushed value is a word. The source pushes any `number`.
- Memory.MSize: requires a memory length below 2^256 for the same reason.
- Control.JumpDest: the source function takes no arguments. The model passes it the stack and the memory only so that its contract can say it leaves them unchanged.
- Bitwise.And, Bitwise.Or and Bitwise.Xor: their own ensures give only magnitude facts. Their bits are in `Bitwise.BitwiseAt`, their bound in `Bitwise.WordBits` and their symmetry in `Bitwise.BitwiseCommute`.
- Arithmetic.Exp: the source computes the exact power `a ** b` before reducing it. For a base of 2 or more and a large exponent, the JavaScript engine throws a RangeError because the result exceeds its maximum BigInt size, and nothing in evm.ts catches it. That size limit is set by the engine, not by the program. The model always returns a^b mod 2^256 and does not model the throw.
- Evm.StepAt: for the same reason, EXP always continues and never yields `Threw`, whereas the source's `evm()` throws when EXP's exact power is too large for the engine.
- Arithmetic.SignExtend: its own ensures covers only k >= 31. The k < 31 cases are stated by `Arithmetic.SignExtendBits` and `Arithmetic.SignExtendSigned`.
- Bitwise.Shl: its own ensures covers only shift >= 256. The shift < 256 case is `Bitwise.ShlIsMul`.
- Bitwise.Sar: its own ensures covers only shift >= 256. The general statement is `Bitwise.SarFloor`.
- Evm.Evm: termination of the loop is proved by its `decreases |code| - pc` clause, not stated as an ensures.
