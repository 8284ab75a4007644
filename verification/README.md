# PyChip8 core in Dafny

This project models the two pieces of PyChip8 that carry its arithmetic.
It proves properties about both.

- `byte.py`: the wrapping integer classes `Byte` (8 bits) and `Short` (16 bits).
  Every out-of-place operator rebuilds its result through the constructor, which masks it to the class's width.
  The in-place operators store the raw result without masking.
- `main.py`: the partial CHIP-8 interpreter `Chip8`.
  It loads a ROM at `0x200`, fetches big-endian 16-bit instructions, and runs one arm of its `match` per instruction.

Files:

- `outcomes.dfy` (module `Outcomes`): `Option` and `Result`.
- `int_bits.dfy` (module `IntBits`): Python's operators on unbounded integers and the arithmetic lemmas behind them.
  - `&` and `|` are two's-complement on negative numbers.
  - `//` and `%` use floor division.
  - `<<` and `>>` are multiplication and floor division by powers of two.
  - Also here: the `u8` and `u16` ranges NumPy's `ubyte` and `ushort` impose.
- `fixed_width.dfy` (module `FixedWidth`): `byte.py`.
  - One datatype `Word(kind, num)` with `kind` either `Byte` or `Short`.
  - `num` is an unbounded integer, because the in-place operators can push it out of range.
  - `Valid()` is the range the constructor establishes.
  - An operand is either a value of the same class (`Same`) or a plain integer (`Plain`).
- `chip8.dfy` (module `Chip8`): `main.py`.
  - An immutable machine `State`.
  - `New`, the constructor's loading loop.
  - `Fetch`.
  - `Execute`, one arm of the `match`, with the arms in source order.
  - `Step`, which is `Fetch` followed by `Execute`.

Each IndexError NumPy would raise becomes an `Error` value, and so does the `unimplemented` exception and a stack pointer that would drop below zero.

The interpreter is modelled as the code is written, not as the CHIP-8 instruction set defines it.
The code departs from CHIP-8 in these places, and the model follows the code:

- `2nnn` pushes the program counter but does not jump.
- The stack pointer moves in steps of 2.
- `00EE` does not add 2 after returning.
- `6xkk`, `7xkk` and `Annn` leave `pc` unchanged.
- The `8xy?` arm is guarded by `== 5`, so the `5xy0` arm shadows it.
- There is no font, no timer decay and no `VF` flag, and `Byte` records no overflow flag.

## Model

| member | source | states |
|---|---|---|
| FixedWidth.New | byte.py:3-4 | The constructor gives a value of the requested class inside its range: 0..255 for `Byte`, 0..65535 for `Short`. |
| FixedWidth.MaskIsPythonAnd | byte.py:3-4 | The constructor's result is Python's `n & 0xFF` (`& 0xFFFF`) for every integer `n`, negative ones included. |
| FixedWidth.ConstructorExamples | byte.py:3-4 | `Byte(-1)` is 255. `Byte(0)` and `Byte(None)` are 0. `Short` keeps sixteen bits: `Short(-1)` is 0xFFFF. |
| FixedWidth.NewKeepsValid | byte.py:3-4 | Rebuilding a value that is already in range returns the same value, so masking is idempotent. |
| FixedWidth.Add | byte.py:6-7 | `a + b` has `a`'s class, is in range, and is the sum reduced modulo 2^width. |
| FixedWidth.RAdd | byte.py:9-10 | `k + a` is `(k + a.num) mod 2^width`, in range. |
| FixedWidth.IAdd | byte.py:12-14 | `a += b` keeps the class and raises `num` by exactly the operand, with no masking. |
| FixedWidth.Sub | byte.py:17-18 | `a - b` is the difference reduced modulo 2^width, in range. |
| FixedWidth.RSub | byte.py:20-21 | `k - a` is `(k - a.num) mod 2^width`, in range. |
| FixedWidth.ISub | byte.py:23-25 | `a -= b` lowers `num` by exactly the operand, with no masking. |
| FixedWidth.Mul | byte.py:28-29 | `a * b` is the product reduced modulo 2^width, in range. |
| FixedWidth.RMul | byte.py:31-32 | `k * a` is `(k * a.num) mod 2^width`, in range. |
| FixedWidth.Div | byte.py:39-40 | `a / b` (and `a // b`, which calls it, lines 49-50) is in range. For an in-range `a` and a positive divisor it is the floor quotient and never exceeds `a`. |
| FixedWidth.Mod | byte.py:59-60 | `a % b` is in range. For an in-range `a` and a positive divisor it is the remainder, below the divisor. |
| FixedWidth.LShift | byte.py:81-82 | `a << k` is `a.num * 2^k` reduced modulo 2^width. |
| FixedWidth.ILShift | byte.py:87-89 | `a <<= k` stores `a.num * 2^k` unmasked. |
| FixedWidth.RShift | byte.py:92-93 | `a >> k` on an in-range value is `a.num // 2^k`, which never exceeds `a.num`. |
| FixedWidth.And | byte.py:103-104 | `a & b` is in range. For an in-range `a` and a non-negative operand, it is at most both operands. |
| FixedWidth.Or | byte.py:114-115 | The bitwise or of `a` and `b` is in range and has `a`'s class. |
| FixedWidth.Neg | byte.py:136-137 | `-a` on an in-range value is `2^width - a.num`, or 0 when `a` is 0. |
| FixedWidth.Invert | byte.py:145-146 | `~a` on an in-range value is `2^width - 1 - a.num`. |
| FixedWidth.FromBytes | byte.py:188-189 | `Short.from_bytes(hi, lo)` is a `Short` in range. When `lo` fits in a byte, it is `(hi * 256 + lo) mod 65536`. |
| FixedWidth.IncrementWraps | byte.py:6-7 | For an in-range `a`, adding 1 gives 0 exactly when `a` is the top of the range, for both `Byte` and `Short`. Otherwise it gives the value plus one. |
| FixedWidth.SubtractionWrapsExample | byte.py:17-18 | `Byte(3) - 5` is 254, and `Short(0xFFFF) + 1` is 0. |
| FixedWidth.SubUndoesAdd | byte.py:6-18 | For an in-range `a`, subtracting what was added restores `a`, and adding what was subtracted restores it too. |
| FixedWidth.RSubNegatesSub | byte.py:17-21 | `k - a` is the negation of `a - k`. |
| FixedWidth.ReflectedOperatorsCommute | byte.py:6-32 | `a + b == b + a` and `a * b == b * a`. The reflected forms agree with the forward ones. |
| FixedWidth.InPlaceAddThenAdd | byte.py:6-14 | After an unmasked `+=`, the next out-of-place `+` gives what masking right away would have given. |
| FixedWidth.InPlaceBreaksRange | byte.py:12-25 | `b += 1` on 255 leaves `num` at 256, outside the range. `-=` can go below 0, and so can `<<=` (lines 87-89) go above the range. |
| FixedWidth.InPlaceThenMask | byte.py:6-25 | Masking what `+=` or `-=` stored gives `a + b` or `a - b`. With a non-negative count, masking what `<<=` stored (lines 81-89) gives `a << k`. |
| FixedWidth.InPlaceSubUndoesAdd | byte.py:12-25 | `a += b` then `a -= b` gives back exactly the `a` it started from, whether or not `num` left the range in between, and so does `-=` then `+=`. |
| FixedWidth.InPlaceIncrementLeavesRange | byte.py:12-14 | On an in-range value, `b += 1` stays in range exactly when `b` was below the top of the range. |
| FixedWidth.NegIsAdditiveInverse | byte.py:136-137 | `-a + a == 0` for every `a`, including a value an in-place operator has left outside the range. |
| FixedWidth.NegInvolution | byte.py:136-137 | `-(-a) == a` for an in-range `a`. |
| FixedWidth.InvertInvolution | byte.py:145-146 | `~~a == a` for an in-range `a`. |
| FixedWidth.InvertIsOnesComplement | byte.py:136-146 | `~a + a` has every bit set, and `~a + 1 == -a`. |
| FixedWidth.ShiftLeftIsMul | byte.py:81-82 | `a << k` equals `a * 2^k`, masked the same way. |
| FixedWidth.ShiftLeftDropsHighBits | byte.py:81-93 | `(a << k) >> k` keeps only the low `width - k` bits of `a`. |
| FixedWidth.ShiftLeftPastWidth | byte.py:81-82 | Shifting left by the width or more gives 0. |
| FixedWidth.ShiftRightIsDiv | byte.py:92-93 | `a >> k` equals `a // 2^k` on an in-range value. |
| FixedWidth.DivModRecompose | byte.py:39-60 | `b * (a // b) + a % b == a` for an in-range `a` and a positive `b`. |
| FixedWidth.NegativeDivisorFloors | byte.py:39-60 | A negative divisor rounds down: `Byte(7) // -2` is `Byte(-4)` = 0xFC, and `Byte(7) % -2` is 0xFF. |
| FixedWidth.BitwiseIdentities | byte.py:103-115 | For an in-range `a`, `a & 0xFF..` is `a` and `a & a` is `a`. Or-ing `a` with itself or with 0 gives `a`. |
| FixedWidth.ComparisonsOrder | byte.py:149-164 | Comparisons within one class form a total order on `num`. `==` is identity, `!=` is its negation, `<=` is `<` or `==`, and `a < b` exactly when `b > a`. |
| FixedWidth.Eq | byte.py:161-162 | For an in-range `a`, `a == k` is false whenever the integer `k` is outside the range, because `k` is compared without masking. |
| FixedWidth.Ne | byte.py:163-164 | `a != b` holds exactly when `a == b` does not. |
| FixedWidth.Lt | byte.py:149-150 | For an in-range `a`, `a < k` holds for every integer `k` at or above 2^width, and fails for every `k` at or below 0. |
| FixedWidth.Ge | byte.py:158-159 | `a >= b` holds exactly when `a < b` does not. |
| FixedWidth.Gt | byte.py:155-156 | For an in-range `a`, `a > k` holds for every negative integer `k`, and fails for every `k` at or above the top of the range. |
| FixedWidth.Le | byte.py:152-153 | `a <= b` holds exactly when `a > b` does not. |
| FixedWidth.FromBytesValue | byte.py:188-189 | `Short.from_bytes(hi, lo)` is `hi * 256 + lo`, with the high byte first. |
| FixedWidth.FromBytesHighByte | byte.py:188-189 | `>> 8` recovers the high byte. |
| FixedWidth.FromBytesLowByte | byte.py:188-189 | `& 0xFF` recovers the low byte. |
| FixedWidth.SplitThenFromBytes | byte.py:188-189 | Splitting a `Short` with `>> 8` and `& 0xFF` and joining the halves again gives the `Short` back. |
| IntBits.FloorDiv | byte.py:39-40 | Python's `//`: the quotient rounds toward minus infinity for both signs of the divisor. |
| IntBits.FloorMod | byte.py:59-60 | Python's `%`: quotient times divisor plus remainder is the dividend, and the remainder takes the divisor's sign. |
| IntBits.BitAnd | byte.py:103-104 | Python's `a & b` on non-negative operands is non-negative and at most each operand. |
| IntBits.BitOr | byte.py:114-115 | Python's bitwise or of non-negative `a` and `b` is at least each of them and at most their sum. |
| IntBits.ShiftLeft | byte.py:81-82 | Python's `n << k` on an unbounded integer loses nothing: shifting back right by `k` gives `n`. |
| IntBits.ShiftRight | byte.py:92-93 | Python's `n >> k` is the floor of `n / 2^k`, for both signs of `n`. |
| IntBits.BitAndLowMask | byte.py:3-4 | Python's `n & (2^k - 1)` is `n mod 2^k` for every integer, negative ones included. |
| IntBits.BitOrDisjoint | byte.py:188-189 | Or-ing `b` into `a << k` gives `a * 2^k + b` when `b` fits in `k` bits. |
| IntBits.ShiftPairField | main.py:67-68 | On a `w`-bit word, `x << a >> b` extracts the `w - b`-bit field starting at bit `b - a`. |
| Chip8.New | main.py:7-30 | Loading succeeds exactly when the ROM has at most 0xE00 bytes. Then RAM holds the ROM from 0x200 on and 0 elsewhere, `pc` is 0x200, and `I`, `SP`, every `V` and every stack slot are 0. A longer ROM fails indexing address 0x1000. |
| Chip8.BootedIsUnique | main.py:7-30 | The loaded machine is determined by the ROM alone. |
| Chip8.Fetch | main.py:32-33 | Fetching succeeds exactly when `pc + 1` is inside memory. The result is `ram[pc] * 256 + ram[pc + 1]`. Otherwise it fails at the first address it reads that lies outside memory: `pc` itself when `pc` is 0x1000 or more, else 0x1000. |
| Chip8.Shl16 | main.py:33 | `np.ushort(n) << k` keeps a product that fits in sixteen bits whole. For `k` up to 16, shifting the result back down gives the low `16 - k` bits of `n`. |
| Chip8.BootedFirstFetch | main.py:11-33 | The first instruction fetched after loading is the first two ROM bytes, big-endian. |
| Chip8.TopBits | main.py:53 | `x & 0xF000` is the top nibble still in place: `(x / 4096) * 4096`. |
| Chip8.Top | main.py:57 | `(x & 0xF000) >> 12` is `x / 4096`, a nibble. |
| Chip8.Low12 | main.py:58 | `x & 0xFFF` is `x mod 4096`. |
| Chip8.Vx | main.py:67 | `x << 4 >> 12` on a `uint16` is the second nibble, `(x / 256) mod 16`. |
| Chip8.Vy | main.py:86 | `x << 8 >> 12` on a `uint16` is the third nibble, `(x / 16) mod 16`. |
| Chip8.Kk | main.py:68 | `x << 8 >> 8` on a `uint16` is the low byte, `x mod 256`. |
| Chip8.Nnn | main.py:126 | `x << 4 >> 4` on a `uint16` is the low twelve bits, `x mod 4096`. |
| Chip8.DecodeRecombines | main.py:57-68 | The decoded nibbles put back together give the instruction, `nnn` is `x` followed by `kk`, and `x & 0xFFF` equals `nnn`. |
| Chip8.Execute | main.py:41-129 | A successful instruction keeps the array sizes and never writes memory. |
| Chip8.Step | main.py:36-41 | A step keeps the array sizes and never writes memory. A failed fetch fails the step with the fetch's error. |
| Chip8.ClearDisplay | main.py:134-135 | `clear_display` changes no register, no memory and no stack slot. |
| Chip8.Advance | main.py:45 | `regPC += n` changes only `pc`. It moves `pc` by `n` modulo 2^16, and by exactly `n` when the sum stays below 2^16. |
| Chip8.Return | main.py:48-50 | `00EE` succeeds exactly when `SP` is in 2..15. Then `pc` is `stack[SP]`, `SP` is 2 lower and nothing else changes. Otherwise it fails with an index error when `SP` is 16 or more and with an underflow below 2. |
| Chip8.Call | main.py:61-63 | `2nnn` succeeds exactly when `SP + 2` is below 16. Then `SP` is 2 higher, `pc` is kept, slot `SP + 2` holds `pc`, every other slot is unchanged, and a following `00EE` returns to the same `pc` and `SP`. Otherwise it fails with the index error for `SP + 2`. |
| Chip8.ClearScreenAdvances | main.py:43-45 | `00E0` adds 2 to `pc` and changes nothing else, because clearing the display does nothing. |
| Chip8.SysIsSkipped | main.py:53-54 | Every other `0nnn` except `00EE` adds 2 to `pc` and changes nothing else. |
| Chip8.JumpSetsPc | main.py:57-58 | `1nnn` sets `pc` to `nnn`, which is below 0x1000, and changes nothing else. |
| Chip8.CallPushesWithoutJumping | main.py:61-63 | `2nnn` adds 2 to `SP` and stores `pc` in the new slot, without jumping. If the new slot is 16 or more, it fails with an index error. |
| Chip8.ReturnPops | main.py:48-50 | `00EE` loads `pc` from `stack[SP]` and subtracts 2 from `SP`. It fails when `SP` is 16 or more (an index error) or below 2 (an underflow). |
| Chip8.ReturnUndoesCall | main.py:48-63 | `00EE` right after `2nnn` restores `pc` and `SP` when `SP + 2 < 16`. Only the pushed stack slot stays changed. |
| Chip8.SkipIfEqualImmediate | main.py:66-72 | `3xkk` changes only `pc`. It adds 4 exactly when `V[x] == kk` and 2 otherwise. |
| Chip8.SkipIfNotEqualImmediate | main.py:75-81 | `4xkk` changes only `pc`. It adds 4 exactly when `V[x] != kk` and 2 otherwise. |
| Chip8.ImmediateSkipsAreComplementary | main.py:66-81 | For the same register and byte, exactly one of `3xkk` and `4xkk` skips. |
| Chip8.SkipIfEqualRegisters | main.py:84-90 | `5xy0` changes only `pc`. It adds 4 exactly when `V[x] == V[y]` and 2 otherwise. |
| Chip8.SkipIfNotEqualRegisters | main.py:116-122 | `9xy0` changes only `pc`. It adds 4 exactly when `V[x] != V[y]` and 2 otherwise. |
| Chip8.LoadImmediate | main.py:93-96 | `6xkk` sets `V[x]` to `kk`. Nothing else changes, `pc` included. |
| Chip8.AddImmediate | main.py:99-102 | `7xkk` sets `V[x]` to `(V[x] + kk) mod 256` and leaves `pc` alone. It sets no carry flag in `VF`. |
| Chip8.SetIndex | main.py:125-126 | `Annn` sets `I` to `nnn` and leaves `pc` alone. |
| Chip8.UnimplementedOpcodes | main.py:104-129 | An instruction reaches the `unimplemented` error exactly when its top nibble is 8, B, C, D, E or F. |
| Chip8.ExecuteFailsExactly | main.py:41-129 | An instruction fails exactly in three cases: it is unimplemented, it is `00EE` with `SP` outside 2..15, or it is `2nnn` with `SP + 2` at 16 or more. |
| Chip8.ExecuteKeepsStackDiscipline | main.py:48-63 | Of all the instructions, only `00EE` and `2nnn` move `SP` or write the stack. When one succeeds from an even `SP` below 16, `SP` stays even and below 16. |
| Chip8.StepKeepsStackDiscipline | main.py:48-63 | A successful step keeps `SP` even and below 16. |
| Chip8.LoadStallsTheMachine | main.py:93-96 | A fetched `6xkk` leaves `pc` where it is. The next step repeats it and changes nothing more, so the loop never advances. |
| Chip8.BootedCallDoesNotJump | main.py:61-63 | A ROM that starts with `2nnn` leaves `pc` at 0x200 with 0x200 pushed in slot 2 after one step. |
| Chip8.BootedReturnUnderflows | main.py:48-50 | A ROM that starts with `00EE` fetches it first and fails the first step with an underflow at `SP` = 0. |

## Left out

- `main()` is left out: it reads the ROM file named on the command line, which is I/O (main.py:138-150).
- The `while True` loop of `run` is modelled as one `Step`, and its hex `print` of each instruction is left out.
- `clear_display` is a stub and is modelled as the identity.
- `delayT` and `soundT` are assigned once and never read, so the state does not hold them.
- Out-of-range accesses are modelled as errors rather than as NumPy's wraparound:
  - `SP` dropping below zero on `00EE` is a `StackUnderflow` error, not NumPy's wraparound of the `ubyte` to 254.
  - `2nnn` with `SP` at 254 or 255 reports the index error for `SP + 2`, where NumPy would wrap `SP` to 0 or 1.
  - The underflow is reachable on the first step after loading a ROM that starts with `00EE` (see `Chip8.BootedReturnUnderflows`). There the model stops with the error, while the program sets `pc` to `stack[0]` = 0, wraps `SP` to 254 and carries on.
  - In the model, the `2nnn` case is not reachable from a loaded machine. `SP` starts at 0 and every successful model step keeps it even and below 16 (see `Chip8.StepKeepsStackDiscipline`). That lemma treats the underflow as an error, so it says nothing about the program after an underflow.
  - The program does not reach it either, for a different reason. This argument is not proved here:
    - `2nnn`, `6xkk`, `7xkk` and `Annn` never advance `pc` (main.py:61-63, 93-102, 125-126). `6xkk`, `7xkk` and `Annn` therefore repeat forever. `2nnn` repeats until `SP` reaches 16 and `stack[16]` raises `IndexError`.
    - So none of them is followed by a `00EE`. Up to a run's first `00EE`, `V`, `I`, the stack and `SP` = 0 are still as loaded.
    - That `00EE` underflows and sends `pc` to `stack[0]` = 0. Memory below 0x200 is all `0000`, which steps `pc` by 2 up to 0x200.
    - From 0x200 the run replays the same path, because nothing it reads has changed. It reaches the same `00EE` with `SP` at 254, where `stack[254]` raises `IndexError` before any `2nnn` can run.
- NumPy 2's promotion rules are assumed: `uint16 << int` stays `uint16`, and `V[x] += kk` stores the sum modulo 256. NumPy's overflow warnings are not modelled.
- `__xor__` is left out, because its second definition replaces the first and calls itself without end (byte.py:125-129).
- `__pow__` and `__rpow__` are left out: they demand a third `mod` argument that the `**` operator never passes (byte.py:70-74).
- These `byte.py` members are not modelled:
  - the in-place operators other than `+=`, `-=` and `<<=`;
  - the reflected `__rtruediv__`, `__rfloordiv__`, `__rmod__`, `__rlshift__`, `__rrshift__`, `__rand__` and `__ror__`;
  - `__pos__`, `__abs__`, `__int__`, `__index__`, `__float__`, `__str__` and `__repr__`.
  
  They follow the same pattern as the modelled operators or only convert and format.
- The in-place operators `+=`, `-=` and `<<=` (byte.py:12-14, 23-25, 87-89) change `self.num` and return the same object. The model returns a new value instead, so other names bound to the original object, which would see the unmasked `num`, are not modelled.
- Mixed `Short`/`Byte` operands are excluded by `FixedWidth.Compatible`. The `type(other) is type(self)` test fails for them and the result depends on Python's reflected dispatch.
- A zero divisor in `/`, `//` and `%` is a precondition. Python would raise `ZeroDivisionError`.
- A negative shift count is a precondition. Python would raise `ValueError`.
- The constructor's argument is an optional integer. `int(num)` on floats and strings is not modelled.
- FixedWidth.Div: the exact quotient is stated only for an in-range dividend and a positive divisor. Negative divisors are shown by `FixedWidth.NegativeDivisorFloors` and `IntBits.FloorDiv`.
- FixedWidth.Mod: the exact remainder is stated only for an in-range dividend and a positive divisor. `IntBits.FloorMod` states the general case.
- FixedWidth.RShift: the quotient is stated only for an in-range operand.
- FixedWidth.And: besides the range, the contract states only the bounds, and only for an in-range `a` and a non-negative operand. The mask cases are in `FixedWidth.BitwiseIdentities` and `FixedWidth.FromBytesLowByte`.
- FixedWidth.Or: only the range and class are stated. Its value on disjoint bits is in `IntBits.BitOrDisjoint` and `FixedWidth.FromBytesValue`.
- FixedWidth.Neg: the value is stated only for an in-range operand.
- FixedWidth.Invert: the value is stated only for an in-range operand.
- Chip8.Execute: the contract states only what every instruction keeps. The effect of each opcode is stated by the lemmas named after it.
