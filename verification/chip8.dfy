/**
 The partial CHIP-8 interpreter of `main.py`: the machine state, loading a
 ROM, fetching an instruction, and one pass through the `match` of the run
 loop as a pure step from state to state.

 NumPy's fixed-width registers are written out: `ram` and `v` hold bytes,
 `pc`, `i` and the stack hold 16-bit words, and a 16-bit instruction shifted
 left keeps only its low sixteen bits. An `IndexError` from NumPy, the
 `unimplemented` exception, and a stack pointer that would step below zero
 come back as an `Error`.
 */
module Chip8 {
  import opened IntBits
  import opened Outcomes

  // ---------------------------------------------------------------------
  // Machine state

  /** The registers and memory of `Chip8`; the unused timers are not kept. */
  datatype State = State(
    ram: seq<u8>,     // 4 KiB of memory
    v: seq<u8>,       // V0 .. VF
    i: u16,           // the address register I
    pc: u16,          // the program counter
    stack: seq<u16>,  // sixteen return-address slots
    sp: u8)           // the stack pointer, an index into `stack`
  {
    /** The array sizes the constructor allocates. */
    predicate WellFormed()
    {
      |ram| == 0x1000 && |v| == 16 && |stack| == 16
    }

    /** The stack pointer sits on an even slot of the stack, as CALL and RET keep it. */
    predicate StackDisciplined()
    {
      sp < 16 && sp % 2 == 0
    }
  }

  /** Why a step stops: an out-of-range index, a stack pointer below zero, or an opcode the interpreter lacks. */
  datatype Error =
    | RamIndex(address: int)
    | StackIndex(index: int)
    | StackUnderflow(sp: int)
    | Unimplemented(instr: u16)

  /** Where the ROM is loaded and execution begins. */
  const ProgramStart: int := 0x200

  /** The longest ROM that fits between `ProgramStart` and the end of memory. */
  const MaxRomSize: int := 0x1000 - ProgramStart

  /** The byte at `address` right after loading `rom`: the ROM from `ProgramStart` on, zero elsewhere. */
  function LoadedByte(rom: seq<u8>, address: int): u8
  {
    if ProgramStart <= address < ProgramStart + |rom| then rom[address - ProgramStart] else 0
  }

  /** The state `Chip8(rom)` builds: the ROM in memory, `pc` at `ProgramStart`, everything else zero. */
  predicate Booted(s: State, rom: seq<u8>)
  {
    && s.WellFormed()
    && (forall a | 0 <= a < 0x1000 :: s.ram[a] == LoadedByte(rom, a))
    && (forall k | 0 <= k < 16 :: s.v[k] == 0 && s.stack[k] == 0)
    && s.i == 0 && s.pc == ProgramStart && s.sp == 0
  }

  /**
   `Chip8(rom)`: zeroed arrays, then each ROM byte copied to
   `ram[0x200 + i]`; the copy runs off the end of memory, and fails, once
   the ROM is longer than `MaxRomSize`.
   */
  method New(rom: seq<u8>) returns (r: Result<State, Error>)
    ensures r.Ok? <==> |rom| <= MaxRomSize
    ensures r.Ok? ==> Booted(r.value, rom)
    ensures r.Err? ==> r.error == RamIndex(0x1000)
  {
    var ram: seq<u8> := seq(0x1000, _ => 0);
    var k := 0;
    while k < |rom|
      invariant 0 <= k <= |rom| && ProgramStart + k <= 0x1000
      invariant |ram| == 0x1000
      invariant forall a | 0 <= a < 0x1000 :: ram[a] == (if ProgramStart <= a < ProgramStart + k then rom[a - ProgramStart] else 0)
    {
      if ProgramStart + k >= 0x1000 {
        return Err(RamIndex(ProgramStart + k));
      }
      ram := ram[ProgramStart + k := rom[k]];
      k := k + 1;
    }
    r := Ok(State(ram, seq(16, _ => 0), 0, ProgramStart, seq(16, _ => 0), 0));
  }

  /** A booted state is determined by its ROM. */
  lemma BootedIsUnique(s: State, t: State, rom: seq<u8>)
    requires Booted(s, rom) && Booted(t, rom)
    ensures s == t
  {
    assert s.ram == t.ram;
    assert s.v == t.v;
    assert s.stack == t.stack;
  }

  // ---------------------------------------------------------------------
  // Fetch

  /**
   `np.ushort(n) << k`: the product truncated to sixteen bits. A product that
   fits is kept whole; shifting back down recovers the low `16 - k` bits of `x`.
   */
  function Shl16(x: int, k: nat): (r: u16)
    ensures 0 <= x * Pow2(k) < 0x1_0000 ==> r == x * Pow2(k)
    ensures k <= 16 ==> r / Pow2(k) == x % Pow2(16 - k)
  {
    assert Pow2(8) == 0x100;
    Pow2Add(8, 8);
    ModInRange(x * Pow2(k), 0x1_0000);
    var w := if k <= 16 then 16 else k;
    ShiftLeftRightInWord(x, k, w);
    (x * Pow2(k)) % 0x1_0000
  }

  /**
   `fetch`: the byte at `pc` shifted into the high half, `|` the byte after
   it. Reading past the end of memory is an `IndexError`.
   */
  function Fetch(s: State): (r: Result<u16, Error>)
    requires s.WellFormed()
    ensures r.Ok? <==> s.pc < 0xFFF
    ensures r.Ok? ==> r.value == s.ram[s.pc] as int * 0x100 + s.ram[s.pc + 1]
    ensures r.Err? ==> r.error == RamIndex(if s.pc < 0x1000 then 0x1000 else s.pc)
  {
    if s.pc >= 0x1000 then Err(RamIndex(s.pc))
    else if s.pc + 1 >= 0x1000 then Err(RamIndex(s.pc + 1))
    else
      var hi, lo := s.ram[s.pc] as int, s.ram[s.pc + 1] as int;
      assert Pow2(8) == 0x100;
      ModInRange(hi * 0x100, 0x1_0000);
      BitOrDisjoint(hi, lo, 8);
      Ok(BitOr(Shl16(hi, 8), lo))
  }

  /** The first instruction of a booted machine is the first two ROM bytes, big-endian. */
  lemma BootedFirstFetch(s: State, rom: seq<u8>)
    requires Booted(s, rom) && |rom| >= 2
    ensures Fetch(s) == Ok(rom[0] as int * 0x100 + rom[1])
  {
    assert s.ram[ProgramStart] == rom[0];
    assert s.ram[ProgramStart + 1] == rom[1];
  }

  // ---------------------------------------------------------------------
  // Decoding

  /** `x & 0xF000`: the top nibble left in place. */
  function TopBits(x: u16): (r: int)
    ensures r == x / 0x1000 * 0x1000
  {
    assert Pow2(12) == 0x1000 && Pow2(4) - 1 == 0xF;
    BitAndShifted(x, 0xF, 12);
    BitAndLowMask(x / 0x1000, 4);
    ModInRange(x / 0x1000, 0x10);
    BitAnd(x, 0xF000)
  }

  /** `(x & 0xF000) >> 12`: the opcode's top nibble. */
  function Top(x: u16): (r: int)
    ensures r == x / 0x1000 && 0 <= r < 0x10
  {
    assert Pow2(12) == 0x1000;
    ShiftRight(TopBits(x), 12)
  }

  /** `x & 0xFFF`: the address of `1nnn`. */
  function Low12(x: u16): (r: u16)
    ensures r == x % 0x1000
  {
    assert Pow2(12) - 1 == 0xFFF;
    BitAndLowMask(x, 12);
    BitAnd(x, 0xFFF)
  }

  /** `x << 4 >> 12` on a `uint16`: the register number in the second nibble. */
  function Vx(x: u16): (r: int)
    ensures r == (x / 0x100) % 0x10 && 0 <= r < 16
  {
    assert Pow2(16) == 0x1_0000 && Pow2(8) == 0x100 && Pow2(4) == 0x10;
    ShiftPairField(x, 4, 12, 16);
    ShiftRight(Shl16(x, 4), 12)
  }

  /** `x << 8 >> 12` on a `uint16`: the register number in the third nibble. */
  function Vy(x: u16): (r: int)
    ensures r == (x / 0x10) % 0x10 && 0 <= r < 16
  {
    assert Pow2(16) == 0x1_0000 && Pow2(4) == 0x10;
    ShiftPairField(x, 8, 12, 16);
    ShiftRight(Shl16(x, 8), 12)
  }

  /** `x << 8 >> 8` on a `uint16`: the immediate byte in the low half. */
  function Kk(x: u16): (r: u8)
    ensures r == x % 0x100
  {
    assert Pow2(16) == 0x1_0000 && Pow2(8) == 0x100 && Pow2(0) == 1;
    ShiftPairField(x, 8, 8, 16);
    ShiftRight(Shl16(x, 8), 8)
  }

  /** `x << 4 >> 4` on a `uint16`: the twelve-bit address. */
  function Nnn(x: u16): (r: u16)
    ensures r == x % 0x1000
  {
    assert Pow2(16) == 0x1_0000 && Pow2(12) == 0x1000 && Pow2(0) == 1;
    ShiftPairField(x, 4, 4, 16);
    ShiftRight(Shl16(x, 4), 4)
  }

  /** The decoded fields put back together give the instruction; `nnn` is `x` followed by `kk`. */
  lemma DecodeRecombines(x: u16)
    ensures x == Top(x) * 0x1000 + Vx(x) * 0x100 + Vy(x) * 0x10 + x % 0x10
    ensures Nnn(x) == Vx(x) * 0x100 + Kk(x) && Low12(x) == Nnn(x)
    ensures Kk(x) == Vy(x) * 0x10 + x % 0x10
  {
    DivDiv(x, 0x100, 0x10);
    DivDiv(x, 0x10, 0x10);
    assert x % 0x100 == (x / 0x10) % 0x10 * 0x10 + x % 0x10;
    assert x % 0x1000 == (x / 0x100) % 0x10 * 0x100 + x % 0x100;
  }

  // ---------------------------------------------------------------------
  // One step

  /** `clear_display`: a stub that leaves the machine as it is. */
  function ClearDisplay(s: State): (r: State)
    ensures r.ram == s.ram && r.v == s.v && r.i == s.i && r.pc == s.pc
    ensures r.stack == s.stack && r.sp == s.sp
  {
    s
  }

  /**
   `regPC += n` on a `uint16`: `pc` moves by `n` modulo 2^16 and nothing else
   changes.
   */
  function Advance(s: State, n: int): (r: State)
    ensures r.(pc := s.pc) == s
    ensures 0 <= s.pc + n < 0x1_0000 ==> r.pc == s.pc + n
    ensures (r.pc - s.pc - n) % 0x1_0000 == 0
  {
    ModInRange(s.pc + n, 0x1_0000);
    s.(pc := (s.pc + n) % 0x1_0000)
  }

  /** `00EE`: `pc` from `stack[sp]`, then `sp -= 2`. */
  function Return(s: State): (r: Result<State, Error>)
    requires s.WellFormed()
    ensures r.Ok? <==> 2 <= s.sp < 16
    ensures r.Ok? ==> r.value.WellFormed() && r.value.sp + 2 == s.sp && r.value.pc == s.stack[s.sp]
    ensures r.Ok? ==> r.value.(pc := s.pc, sp := s.sp) == s
    ensures r.Err? ==> r.error == (if s.sp >= 16 then StackIndex(s.sp) else StackUnderflow(s.sp))
  {
    if s.sp >= 16 then Err(StackIndex(s.sp))
    else if s.sp < 2 then Err(StackUnderflow(s.sp))
    else Ok(s.(pc := s.stack[s.sp], sp := s.sp - 2))
  }

  /** `2nnn`: `sp += 2`, then `stack[sp] = pc`; the target address is never used. */
  function Call(s: State): (r: Result<State, Error>)
    requires s.WellFormed()
    ensures r.Ok? <==> s.sp + 2 < 16
    ensures r.Ok? ==> r.value.WellFormed() && r.value.pc == s.pc && r.value.sp == s.sp + 2
    ensures r.Ok? ==> Return(r.value) == Ok(s.(stack := r.value.stack))
    ensures r.Ok? ==> r.value.stack[s.sp + 2] == s.pc
    ensures r.Ok? ==> forall j | 0 <= j < 16 && j != s.sp + 2 :: r.value.stack[j] == s.stack[j]
    ensures r.Err? ==> r.error == StackIndex(s.sp + 2)
  {
    if s.sp + 2 >= 16 then Err(StackIndex(s.sp + 2))
    else Ok(s.(sp := s.sp + 2, stack := s.stack[s.sp + 2 := s.pc]))
  }

  /** Advance by 4 when `skip` holds and by 2 otherwise. */
  function SkipIf(s: State, skip: bool): State
  {
    Advance(s, if skip then 4 else 2)
  }

  /**
   One pass through the `match` of `run` on instruction `x`, arm by arm in
   the order written. The arm guarded a second time by `== 5` (meant for
   `8xy?`) is kept; the `5xy0` arm before it takes every such instruction.
   No instruction writes memory.
   */
  function Execute(s: State, x: u16): (r: Result<State, Error>)
    requires s.WellFormed()
    ensures r.Ok? ==> r.value.WellFormed() && r.value.ram == s.ram
    ensures r.Ok? && x != 0x00EE && Top(x) != 2 ==> r.value.sp == s.sp && r.value.stack == s.stack
  {
    if x == 0x00E0 then Ok(Advance(ClearDisplay(s), 2))
    else if x == 0x00EE then Return(s)
    else if TopBits(x) == 0 then Ok(Advance(s, 2))
    else if Top(x) == 1 then Ok(s.(pc := Low12(x)))
    else if Top(x) == 2 then Call(s)
    else if Top(x) == 3 then Ok(SkipIf(s, s.v[Vx(x)] == Kk(x)))
    else if Top(x) == 4 then Ok(SkipIf(s, s.v[Vx(x)] != Kk(x)))
    else if Top(x) == 5 then Ok(SkipIf(s, s.v[Vx(x)] == s.v[Vy(x)]))
    else if Top(x) == 6 then Ok(s.(v := s.v[Vx(x) := Kk(x)]))
    else if Top(x) == 7 then Ok(s.(v := s.v[Vx(x) := (s.v[Vx(x)] + Kk(x)) % 0x100]))
    else if Top(x) == 5 then Ok(s)
    else if Top(x) == 9 then Ok(SkipIf(s, s.v[Vx(x)] != s.v[Vy(x)]))
    else if Top(x) == 0xA then Ok(s.(i := Nnn(x)))
    else Err(Unimplemented(x))
  }

  /** One iteration of the run loop: fetch, then execute. */
  function Step(s: State): (r: Result<State, Error>)
    requires s.WellFormed()
    ensures r.Ok? ==> r.value.WellFormed() && r.value.ram == s.ram
    ensures Fetch(s).Err? ==> r == Err(Fetch(s).error)
  {
    match Fetch(s)
    case Err(e) => Err(e)
    case Ok(x) => Execute(s, x)
  }

  // ---------------------------------------------------------------------
  // Properties of single instructions

  /** `00E0` moves on to the next instruction and changes nothing else: there is no display to clear. */
  lemma ClearScreenAdvances(s: State)
    requires s.WellFormed()
    ensures Execute(s, 0x00E0) == Ok(s.(pc := (s.pc + 2) % 0x1_0000))
  {
  }

  /** Any other `0nnn` except `00EE` is skipped over. */
  lemma SysIsSkipped(s: State, x: u16)
    requires s.WellFormed() && x < 0x1000 && x != 0x00E0 && x != 0x00EE
    ensures Execute(s, x) == Ok(s.(pc := (s.pc + 2) % 0x1_0000))
  {
  }

  /** `1nnn` sets `pc` to `nnn`, an address inside memory, and changes nothing else. */
  lemma JumpSetsPc(s: State, x: u16)
    requires s.WellFormed() && x / 0x1000 == 1
    ensures Execute(s, x) == Ok(s.(pc := x % 0x1000))
    ensures Execute(s, x).value.pc < 0x1000
  {
  }

  /**
   `2nnn` pushes `pc` two slots up the stack and does not jump: `pc` and
   everything but `sp` and that slot stay as they were. Pushing past the
   sixteenth slot is an index error.
   */
  lemma CallPushesWithoutJumping(s: State, x: u16)
    requires s.WellFormed() && x / 0x1000 == 2
    ensures s.sp + 2 < 16 ==> Execute(s, x) == Ok(s.(sp := s.sp + 2, stack := s.stack[s.sp + 2 := s.pc]))
    ensures s.sp + 2 >= 16 ==> Execute(s, x) == Err(StackIndex(s.sp + 2))
  {
  }

  /** `00EE` pops `pc` from `stack[sp]` and lowers `sp` by two; an empty or overrun stack is an error. */
  lemma ReturnPops(s: State)
    requires s.WellFormed()
    ensures 2 <= s.sp < 16 ==> Execute(s, 0x00EE) == Ok(s.(pc := s.stack[s.sp], sp := s.sp - 2))
    ensures s.sp >= 16 ==> Execute(s, 0x00EE) == Err(StackIndex(s.sp))
    ensures s.sp < 2 ==> Execute(s, 0x00EE) == Err(StackUnderflow(s.sp))
  {
  }

  /** `00EE` right after `2nnn` restores `pc` and `sp`; only the pushed slot of the stack stays changed. */
  lemma ReturnUndoesCall(s: State, x: u16)
    requires s.WellFormed() && x / 0x1000 == 2 && s.sp + 2 < 16
    ensures Execute(s, x).Ok?
    ensures Execute(Execute(s, x).value, 0x00EE) == Ok(s.(stack := s.stack[s.sp + 2 := s.pc]))
  {
    CallPushesWithoutJumping(s, x);
    var t := Execute(s, x).value;
    ReturnPops(t);
  }

  /** `pc` went up by four, past the next instruction. */
  predicate Skipped(s: State, r: Result<State, Error>)
  {
    r.Ok? && r.value.pc == (s.pc + 4) % 0x1_0000
  }

  /** The step changed `pc` by `n` and nothing else. */
  predicate AdvancedBy(s: State, r: Result<State, Error>, n: int)
  {
    r == Ok(s.(pc := (s.pc + n) % 0x1_0000))
  }

  /** `3xkk` skips exactly when `V[x] == kk`, and otherwise moves on by one instruction. */
  lemma SkipIfEqualImmediate(s: State, x: u16)
    requires s.WellFormed() && x / 0x1000 == 3
    ensures AdvancedBy(s, Execute(s, x), 4) || AdvancedBy(s, Execute(s, x), 2)
    ensures Skipped(s, Execute(s, x)) <==> s.v[(x / 0x100) % 0x10] == x % 0x100
  {
  }

  /** `4xkk` skips exactly when `V[x] != kk`, and otherwise moves on by one instruction. */
  lemma SkipIfNotEqualImmediate(s: State, x: u16)
    requires s.WellFormed() && x / 0x1000 == 4
    ensures AdvancedBy(s, Execute(s, x), 4) || AdvancedBy(s, Execute(s, x), 2)
    ensures Skipped(s, Execute(s, x)) <==> s.v[(x / 0x100) % 0x10] != x % 0x100
  {
  }

  /** For one register and one byte, exactly one of `3xkk` and `4xkk` skips. */
  lemma ImmediateSkipsAreComplementary(s: State, reg: int, kk: int)
    requires s.WellFormed() && 0 <= reg < 16 && 0 <= kk < 0x100
    ensures Skipped(s, Execute(s, 0x3000 + reg * 0x100 + kk)) != Skipped(s, Execute(s, 0x4000 + reg * 0x100 + kk))
  {
    var x3, x4 := 0x3000 + reg * 0x100 + kk, 0x4000 + reg * 0x100 + kk;
    DivModUnique(x3, 0x1000, 3, reg * 0x100 + kk);
    DivModUnique(x4, 0x1000, 4, reg * 0x100 + kk);
    DivModUnique(x3, 0x100, 0x30 + reg, kk);
    DivModUnique(x4, 0x100, 0x40 + reg, kk);
    DivModUnique(0x30 + reg, 0x10, 3, reg);
    DivModUnique(0x40 + reg, 0x10, 4, reg);
    SkipIfEqualImmediate(s, x3);
    SkipIfNotEqualImmediate(s, x4);
  }

  /** `5xy0` skips exactly when `V[x] == V[y]`; the low nibble is not looked at. */
  lemma SkipIfEqualRegisters(s: State, x: u16)
    requires s.WellFormed() && x / 0x1000 == 5
    ensures AdvancedBy(s, Execute(s, x), 4) || AdvancedBy(s, Execute(s, x), 2)
    ensures Skipped(s, Execute(s, x)) <==> s.v[(x / 0x100) % 0x10] == s.v[(x / 0x10) % 0x10]
  {
  }

  /** `9xy0` skips exactly when `V[x] != V[y]`. */
  lemma SkipIfNotEqualRegisters(s: State, x: u16)
    requires s.WellFormed() && x / 0x1000 == 9
    ensures AdvancedBy(s, Execute(s, x), 4) || AdvancedBy(s, Execute(s, x), 2)
    ensures Skipped(s, Execute(s, x)) <==> s.v[(x / 0x100) % 0x10] != s.v[(x / 0x10) % 0x10]
  {
  }

  /** `6xkk` writes `kk` into `V[x]` and does not move `pc`. */
  lemma LoadImmediate(s: State, x: u16)
    requires s.WellFormed() && x / 0x1000 == 6
    ensures Execute(s, x) == Ok(s.(v := s.v[(x / 0x100) % 0x10 := x % 0x100]))
  {
  }

  /** `7xkk` adds `kk` to `V[x]` modulo 256, sets no carry in `VF`, and does not move `pc`. */
  lemma AddImmediate(s: State, x: u16)
    requires s.WellFormed() && x / 0x1000 == 7
    ensures Execute(s, x) == Ok(s.(v := s.v[(x / 0x100) % 0x10 := (s.v[(x / 0x100) % 0x10] + x % 0x100) % 0x100]))
  {
  }

  /** `Annn` sets `I` to `nnn` and does not move `pc`. */
  lemma SetIndex(s: State, x: u16)
    requires s.WellFormed() && x / 0x1000 == 0xA
    ensures Execute(s, x) == Ok(s.(i := x % 0x1000))
  {
  }

  /**
   The opcodes without an arm of their own: top nibble 8 (its arm is
   shadowed by `5xy0`), B, C, D, E and F, and no others.
   */
  lemma UnimplementedOpcodes(s: State, x: u16)
    requires s.WellFormed()
    ensures Execute(s, x) == Err(Unimplemented(x)) <==> x / 0x1000 in {0x8, 0xB, 0xC, 0xD, 0xE, 0xF}
  {
  }

  /** Every way one instruction can fail: an unimplemented opcode, or a stack pointer out of reach. */
  lemma ExecuteFailsExactly(s: State, x: u16)
    requires s.WellFormed()
    ensures Execute(s, x).Err? <==>
      || x / 0x1000 in {0x8, 0xB, 0xC, 0xD, 0xE, 0xF}
      || (x == 0x00EE && (s.sp < 2 || s.sp >= 16))
      || (x / 0x1000 == 2 && s.sp + 2 >= 16)
  {
  }

  // ---------------------------------------------------------------------
  // Properties of the run loop

  /** Only `00EE` and `2nnn` move `SP`, and each keeps it even and below 16 when it succeeds. */
  lemma ExecuteKeepsStackDiscipline(s: State, x: u16)
    requires s.WellFormed() && s.StackDisciplined() && Execute(s, x).Ok?
    ensures Execute(s, x).value.StackDisciplined()
  {
    if x == 0x00EE {
      assert Execute(s, x) == Return(s);
    } else if Top(x) == 2 {
      assert Execute(s, x) == Call(s);
    }
  }

  /** A successful step keeps the stack pointer on an even slot inside the stack. */
  lemma StepKeepsStackDiscipline(s: State)
    requires s.WellFormed() && s.StackDisciplined() && Step(s).Ok?
    ensures Step(s).value.StackDisciplined()
  {
    var x := Fetch(s).value;
    assert Step(s) == Execute(s, x);
    ExecuteKeepsStackDiscipline(s, x);
  }

  /**
   Because `6xkk` does not move `pc`, a machine that fetches one stays on it:
   the next step fetches the same instruction and leaves the state as it is.
   */
  lemma LoadStallsTheMachine(s: State)
    requires s.WellFormed() && Fetch(s).Ok? && Fetch(s).value / 0x1000 == 6
    ensures Step(s).Ok? && Step(s).value.pc == s.pc
    ensures Step(Step(s).value) == Step(s)
  {
    var x := Fetch(s).value;
    var reg, kk := (x / 0x100) % 0x10, x % 0x100;
    LoadImmediate(s, x);
    var t := s.(v := s.v[reg := kk]);
    assert Step(s) == Ok(t);
    assert Fetch(t) == Fetch(s);
    LoadImmediate(t, x);
    assert t.v[reg := kk] == t.v;
    assert Step(t) == Ok(t);
  }

  /**
   A ROM that starts with a call: the first step pushes `0x200` into stack
   slot 2 and leaves `pc` at `0x200`, so the same call runs again.
   */
  lemma BootedCallDoesNotJump(s: State, rom: seq<u8>)
    requires Booted(s, rom) && |rom| >= 2 && rom[0] / 0x10 == 2
    ensures Step(s).Ok?
    ensures Step(s).value.pc == ProgramStart && Step(s).value.sp == 2 && Step(s).value.stack[2] == ProgramStart
  {
    BootedFirstFetch(s, rom);
    var x := Fetch(s).value;
    DivModUnique(x, 0x1000, 2, (rom[0] as int % 0x10) * 0x100 + rom[1]);
    CallPushesWithoutJumping(s, x);
  }

  /**
   A ROM that starts with a return underflows on the first step: `sp` is 0
   at boot, so `00EE` runs with nothing pushed. The model stops there.
   */
  lemma BootedReturnUnderflows(s: State, rom: seq<u8>)
    requires Booted(s, rom) && |rom| >= 2 && rom[0] == 0x00 && rom[1] == 0xEE
    ensures Fetch(s) == Ok(0x00EE)
    ensures Step(s) == Err(StackUnderflow(0))
  {
    BootedFirstFetch(s, rom);
  }
}
