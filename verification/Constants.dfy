/** The short-form instructions for integer constants, locals and arguments:
    what is emitted, and what running it leaves on the stack. */
module Constants {
  import opened Options

  const TWO31: int := 0x8000_0000
  const TWO32: int := 0x1_0000_0000
  const TWO63: int := 0x8000_0000_0000_0000
  const TWO64: int := 0x1_0000_0000_0000_0000

  type Int32 = x: int | -TWO31 <= x < TWO31
  type UInt32 = x: int | 0 <= x < TWO32
  type Int64 = x: int | -TWO63 <= x < TWO63
  type UInt64 = x: int | 0 <= x < TWO64

  /** C's conversions to narrower or differently signed types. */
  function ToInt32(x: int): (r: Int32)
    ensures r % TWO32 == x % TWO32
  {
    (x + TWO31) % TWO32 - TWO31
  }

  function ToInt64(x: int): (r: Int64)
    ensures r % TWO64 == x % TWO64
  {
    (x + TWO63) % TWO64 - TWO63
  }

  function ToSignedChar(x: int): (r: int)
    ensures -128 <= r < 128 && r % 256 == x % 256
  {
    (x + 128) % 256 - 128
  }

  function ToShort(x: int): (r: int)
    ensures -32768 <= r < 32768 && r % 0x1_0000 == x % 0x1_0000
  {
    (x + 32768) % 0x1_0000 - 32768
  }

  datatype Instruction = Instruction(opcode: nat, arg: int)

  /** Bit patterns on the evaluation stack. */
  datatype Word = Bits32(b: UInt32) | Bits64(q: UInt64)

  // --------------------------------------- IL, Partition III of ECMA-335

  const LDARG_0 := 0x02
  const LDLOC_0 := 0x06
  const STLOC_0 := 0x0A
  const LDARG_S := 0x0E
  const LDARGA_S := 0x0F
  const STARG_S := 0x10
  const LDLOC_S := 0x11
  const LDLOCA_S := 0x12
  const STLOC_S := 0x13
  const LDC_I4_M1 := 0x15
  const LDC_I4_0 := 0x16
  const LDC_I4_8 := 0x1E
  const LDC_I4_S := 0x1F
  const LDC_I4 := 0x20
  const LDC_I8 := 0x21
  const CONV_I1 := 0x67
  const CONV_I2 := 0x68
  const CONV_I4 := 0x69
  const CONV_I8 := 0x6A
  const CONV_U4 := 0x6D
  const CONV_U8 := 0x6E
  const CONV_U2 := 0xD1
  const CONV_U1 := 0xD2
  const PREFIX := 0xFE
  const P_LDARG := 0x09
  const P_LDARGA := 0x0A
  const P_STARG := 0x0B
  const P_LDLOC := 0x0C
  const P_LDLOCA := 0x0D
  const P_STLOC := 0x0E

  /** The value a constant instruction pushes (section 3.40). */
  function Pushed(i: Instruction): (r: Option<Word>) {
    if LDC_I4_M1 <= i.opcode <= LDC_I4_8 then Some(Bits32((i.opcode - LDC_I4_0) % TWO32))
    else if i.opcode == LDC_I4_S && -128 <= i.arg < 128 then Some(Bits32(i.arg % TWO32))
    else if i.opcode == LDC_I4 && 0 <= i.arg < TWO32 then Some(Bits32(i.arg))
    else if i.opcode == LDC_I8 && 0 <= i.arg < TWO64 then Some(Bits64(i.arg))
    else None
  }

  /** The conversions to the eight integer types of fixed size (section 3.27):
      to 64 bits they extend the sign or a zero, to fewer bits they cut, and
      what is cut is extended to 32 bits again. */
  function Converted(i: Instruction, w: Word): (r: Option<Word>) {
    var low := if w.Bits32? then w.b else w.q;
    if i.opcode == CONV_I8 then Some(if w.Bits32? then Bits64(ToInt32(w.b) % TWO64) else w)
    else if i.opcode == CONV_U8 then Some(Bits64(low))
    else if i.opcode == CONV_I4 || i.opcode == CONV_U4 then Some(Bits32(low % TWO32))
    else if i.opcode == CONV_I2 then Some(Bits32(ToShort(low) % TWO32))
    else if i.opcode == CONV_U2 then Some(Bits32(low % 0x1_0000))
    else if i.opcode == CONV_I1 then Some(Bits32(ToSignedChar(low) % TWO32))
    else if i.opcode == CONV_U1 then Some(Bits32(low % 0x100))
    else None
  }

  /** What a code sequence leaves on an empty stack: an integer constant, then
      any number of these conversions. */
  function Evaluated(code: seq<Instruction>): (w: Option<Word>) {
    if code == [] then None
    else if |code| == 1 then Pushed(code[0])
    else
      var before := Evaluated(code[..|code|-1]);
      if before.Some? then Converted(code[|code|-1], before.value) else None
  }

  /** Bytes of an instruction. */
  function Size(i: Instruction): (r: nat) {
    if i.opcode == LDC_I4_S then 2 else if i.opcode == LDC_I4 then 5 else if i.opcode == LDC_I8 then 9 else 1
  }

  function CodeSize(code: seq<Instruction>): (n: nat) {
    if code == [] then 0 else CodeSize(code[..|code|-1]) + Size(code[|code|-1])
  }

  /** No constant with conversions that leaves the same value takes fewer
      bytes. */
  ghost predicate ShortestCode(code: seq<Instruction>) {
    forall other :: Evaluated(other).Some? && Evaluated(other) == Evaluated(code) ==> CodeSize(code) <= CodeSize(other)
  }

  datatype Access = LoadLocal(n: nat) | StoreLocal(n: nat) | LocalAddress(n: nat) | LoadArg(n: nat) | StoreArg(n: nat) | ArgAddress(n: nat)

  /** What an instruction on a local or an argument accesses: a byte index in
      the short forms, 16 bits in the prefixed ones. */
  function Accessed(i: Instruction): (r: Option<Access>) {
    if LDARG_0 <= i.opcode < LDARG_0 + 4 then Some(LoadArg(i.opcode - LDARG_0))
    else if LDLOC_0 <= i.opcode < LDLOC_0 + 4 then Some(LoadLocal(i.opcode - LDLOC_0))
    else if STLOC_0 <= i.opcode < STLOC_0 + 4 then Some(StoreLocal(i.opcode - STLOC_0))
    else if 0 <= i.arg < 0x100 && i.opcode == LDARG_S then Some(LoadArg(i.arg))
    else if 0 <= i.arg < 0x100 && i.opcode == LDARGA_S then Some(ArgAddress(i.arg))
    else if 0 <= i.arg < 0x100 && i.opcode == STARG_S then Some(StoreArg(i.arg))
    else if 0 <= i.arg < 0x100 && i.opcode == LDLOC_S then Some(LoadLocal(i.arg))
    else if 0 <= i.arg < 0x100 && i.opcode == LDLOCA_S then Some(LocalAddress(i.arg))
    else if 0 <= i.arg < 0x100 && i.opcode == STLOC_S then Some(StoreLocal(i.arg))
    else if 0 <= i.arg < 0x1_0000 && i.opcode == PREFIX + P_LDARG then Some(LoadArg(i.arg))
    else if 0 <= i.arg < 0x1_0000 && i.opcode == PREFIX + P_LDARGA then Some(ArgAddress(i.arg))
    else if 0 <= i.arg < 0x1_0000 && i.opcode == PREFIX + P_STARG then Some(StoreArg(i.arg))
    else if 0 <= i.arg < 0x1_0000 && i.opcode == PREFIX + P_LDLOC then Some(LoadLocal(i.arg))
    else if 0 <= i.arg < 0x1_0000 && i.opcode == PREFIX + P_LDLOCA then Some(LocalAddress(i.arg))
    else if 0 <= i.arg < 0x1_0000 && i.opcode == PREFIX + P_STLOC then Some(StoreLocal(i.arg))
    else None
  }

  // --------------------------------- Java, section 6.5 of the Java Virtual Machine Specification

  const ICONST_0 := 0x03
  const LCONST_0 := 0x09
  const LCONST_1 := 0x0A
  const BIPUSH := 0x10
  const SIPUSH := 0x11
  const JAVA_LDC := 0x12
  const LDC2_W := 0x14
  const I2L := 0x85

  function JavaPushed(i: Instruction): (r: Option<Word>) {
    if ICONST_0 - 1 <= i.opcode <= ICONST_0 + 5 then Some(Bits32((i.opcode - ICONST_0) % TWO32))
    else if i.opcode == BIPUSH && -128 <= i.arg < 128 then Some(Bits32(i.arg % TWO32))
    else if i.opcode == SIPUSH && -32768 <= i.arg < 32768 then Some(Bits32(i.arg % TWO32))
    else if i.opcode == JAVA_LDC && -TWO31 <= i.arg < TWO31 then Some(Bits32(i.arg % TWO32))
    else if i.opcode == LCONST_0 then Some(Bits64(0))
    else if i.opcode == LCONST_1 then Some(Bits64(1))
    else if i.opcode == LDC2_W && 0 <= i.arg < TWO64 then Some(Bits64(i.arg))
    else None
  }

  function JavaEvaluated(code: seq<Instruction>): (r: Option<Word>) {
    if |code| == 1 then JavaPushed(code[0])
    else if |code| == 2 && code[1].opcode == I2L && JavaPushed(code[0]).Some? && JavaPushed(code[0]).value.Bits32?
    then Some(Bits64(ToInt32(JavaPushed(code[0]).value.b) % TWO64))
    else None
  }

  // ------------------------------------------------------------ the emitters

  /** A 32-bit pattern read as a signed number is the number it came from. */
  lemma SignedBack(v: Int32)
    ensures ToInt32(v % TWO32) == v
  {
  }

  /** A 32-bit constant followed by a conversion to 64 bits. */
  lemma Widened(code: seq<Instruction>, i: Instruction)
    requires |code| == 1 && Evaluated(code).Some? && Evaluated(code).value.Bits32?
    requires i.opcode == CONV_I8 || i.opcode == CONV_U8
    ensures var b := Evaluated(code).value.b;
            Evaluated(code + [i]) == Some(Bits64(if i.opcode == CONV_I8 then ToInt32(b) % TWO64 else b))
    ensures CodeSize(code + [i]) == CodeSize(code) + 1
  {
    hide Pushed, ToInt32;
    assert (code + [i])[..1] == code;
  }

  lemma LongLoads(v: UInt64)
    ensures Evaluated([Instruction(LDC_I8, v)]) == Some(Bits64(v))
    ensures JavaEvaluated([Instruction(LDC2_W, v)]) == Some(Bits64(v))
  {
  }

  lemma JavaWidened(code: seq<Instruction>, i: Instruction)
    requires |code| == 1 && JavaEvaluated(code).Some? && JavaEvaluated(code).value.Bits32? && i.opcode == I2L
    ensures JavaEvaluated(code + [i]) == Some(Bits64(ToInt32(JavaEvaluated(code).value.b) % TWO64))
  {
    hide JavaPushed, ToInt32;
  }

  lemma JavaSmall()
    ensures JavaPushed(Instruction(LCONST_0, 0)) == Some(Bits64(0)) && JavaPushed(Instruction(LCONST_1, 0)) == Some(Bits64(1))
  {
  }

  /** The two halves that are printed make up the value. */
  lemma Halves(v: Int64)
    ensures (v / TWO32) % TWO32 * TWO32 + v % TWO32 == v % TWO64
  {
  }

  /** The unsigned values at the top, cut to 32 bits and sign-extended. */
  lemma HighUnsigned(v: UInt64)
    requires v >= -TWO31 % TWO64
    ensures ToInt32(v) == v - TWO64 && ToInt32(v) % TWO64 == v
  {
  }

  /** Bytes of the shortest single constant for a 32-bit pattern. */
  function Single32(b: UInt32): (n: nat) {
    var v := ToInt32(b);
    if -1 <= v <= 8 then 1 else if -128 <= v <= 127 then 2 else 5
  }

  /** A negative byte, cut to eight or sixteen bits without a sign, gives these
      values; the emitters do not make use of it. */
  predicate FromByte(v: int) {
    128 <= v <= 255 || 65408 <= v <= 65535
  }

  /** The fewest bytes that leave a 32-bit pattern. */
  function Least32(b: UInt32): (n: nat) {
    if b == 255 || b == 65535 then 2 else if FromByte(b) then 3 else Single32(b)
  }

  /** A 64-bit pattern may also come from 32 bits, extended either way. */
  function Least(w: Word): (n: nat) {
    match w
    case Bits32(b) => Least32(b)
    case Bits64(q) => if q < TWO32 || q >= TWO64 - TWO31 then Least32(q % TWO32) + 1 else 9
  }

  lemma PushedAtLeast(i: Instruction)
    requires Pushed(i).Some?
    ensures Least(Pushed(i).value) <= Size(i)
  {
    if Size(i) == 1 {
      SignedBack(i.opcode - LDC_I4_0);
    } else if Size(i) == 2 {
      SignedBack(i.arg);
    }
  }

  /** One conversion saves at most its own byte. */
  lemma ConvertedAtLeast(i: Instruction, w: Word)
    requires Converted(i, w).Some?
    ensures Least(Converted(i, w).value) <= Least(w) + 1
  {
    hide Least32;
    LeastAtMost(Converted(i, w).value);
    if w.Bits32? && i.opcode == CONV_I8 {
      SignedWide(w.b);
    } else if i.opcode != CONV_I8 && i.opcode != CONV_U8 {
      var b := if w.Bits32? then w.b else w.q % TWO32;
      NarrowedAtLeast(i, b);
      if w.Bits64? {
        SameLowBits(w.q);
      }
    }
  }

  lemma LeastAtMost(w: Word)
    ensures w.Bits32? ==> Least(w) <= 5
    ensures Least(w) <= 9
  {
  }

  /** A remainder is found by naming the quotient. */
  lemma Low16(x: int, k: int, r: int)
    requires 0 <= r < 0x1_0000 && x == 0x1_0000 * k + r
    ensures x % 0x1_0000 == r
  {
  }

  lemma Low8(x: int, k: int, r: int)
    requires 0 <= r < 0x100 && x == 0x100 * k + r
    ensures x % 0x100 == r
  {
  }

  lemma ShortIs(x: int, r: int)
    requires -32768 <= r < 32768 && r % 0x1_0000 == x % 0x1_0000
    ensures ToShort(x) == r
  {
    hide ToShort;
    var s := ToShort(x);
    assert s % 0x1_0000 == if s >= 0 then s else s + 0x1_0000;
    assert r % 0x1_0000 == if r >= 0 then r else r + 0x1_0000;
  }

  lemma SignedCharIs(x: int, r: int)
    requires -128 <= r < 128 && r % 0x100 == x % 0x100
    ensures ToSignedChar(x) == r
  {
    hide ToSignedChar;
    var s := ToSignedChar(x);
    assert s % 0x100 == if s >= 0 then s else s + 0x100;
    assert r % 0x100 == if r >= 0 then r else r + 0x100;
  }

  lemma SameLowBits(q: UInt64)
    ensures q % TWO32 % 0x1_0000 == q % 0x1_0000 && q % TWO32 % 0x100 == q % 0x100
    ensures ToShort(q % TWO32) == ToShort(q) && ToSignedChar(q % TWO32) == ToSignedChar(q)
  {
    hide ToShort, ToSignedChar;
    var k, w := q / TWO32, q % TWO32;
    assert q == TWO32 * k + w;
    Low16(q, 0x1_0000 * k + w / 0x1_0000, w % 0x1_0000);
    Low8(q, 0x100_0000 * k + w / 0x100, w % 0x100);
    ShortIs(w, ToShort(q));
    SignedCharIs(w, ToSignedChar(q));
  }

  lemma SignedWide(b: UInt32)
    ensures var q := ToInt32(b) % TWO64; (q < TWO32 || q >= TWO64 - TWO31) && q % TWO32 == b
  {
  }

  /** The patterns that take few bytes. */
  lemma SmallWords(b: UInt32)
    ensures Least32(b) <= 5
    ensures Least32(b) <= 3 ==> b <= 255 || 65408 <= b <= 65535 || b >= TWO32 - 128
    ensures Least32(b) == 1 ==> b <= 8 || b == TWO32 - 1
  {
  }

  lemma CutToByte(b: UInt32)
    ensures Least32(b % 0x100) <= Least32(b) + 1
  {
    SmallWords(b);
    SmallBytes(b % 0x100);
  }

  lemma SmallBytes(c: UInt32)
    requires c < 0x100
    ensures Least32(c) <= 3 && (c <= 127 || c == 255 ==> Least32(c) <= 2) && (c <= 8 ==> Least32(c) == 1)
  {
  }

  lemma CutToShort(b: UInt32)
    ensures Least32(b % 0x1_0000) <= Least32(b) + 1
  {
    SmallWords(b);
    SmallWords(b % 0x1_0000);
    if Least32(b) <= 3 {
      if b >= TWO32 - 128 {
        assert b % 0x1_0000 == b - 0xFFFF_0000;
      } else {
        assert b % 0x1_0000 == b;
      }
    }
  }

  lemma CutToSignedByte(b: UInt32)
    ensures Least32(ToSignedChar(b) % TWO32) <= Least32(b) + 1
  {
    SignedBack(ToSignedChar(b));
  }

  lemma CutToSignedShort(b: UInt32)
    ensures Least32(ToShort(b) % TWO32) <= Least32(b) + 1
  {
    hide ToShort;
    SmallWords(b);
    SmallWords(ToShort(b) % TWO32);
    SignedBack(ToShort(b));
    if Least32(b) <= 3 {
      if b <= 255 {
        ShortIs(b, b);
      } else if b >= TWO32 - 128 {
        Low16(b, 0xFFFF, b - 0xFFFF_0000);
        Low16(b - TWO32, -1, b - 0xFFFF_0000);
        ShortIs(b, b - TWO32);
      } else {
        Low16(b - 65536, -1, b);
        ShortIs(b, b - 65536);
      }
    }
  }

  lemma NarrowedAtLeast(i: Instruction, b: UInt32)
    requires i.opcode != CONV_I8 && i.opcode != CONV_U8 && Converted(i, Bits32(b)).Some?
    ensures Least32(Converted(i, Bits32(b)).value.b) <= Least32(b) + 1
  {
    hide Least32, ToShort, ToSignedChar;
    CutToByte(b);
    CutToShort(b);
    CutToSignedByte(b);
    CutToSignedShort(b);
  }

  /** No code beats the least size. */
  lemma {:induction false} CodeAtLeast(code: seq<Instruction>)
    requires Evaluated(code).Some?
    ensures Least(Evaluated(code).value) <= CodeSize(code)
  {
    hide Pushed, Converted, Least, Size;
    if |code| == 1 {
      PushedAtLeast(code[0]);
      assert CodeSize(code) == CodeSize([]) + Size(code[0]);
    } else {
      var before, last := code[..|code|-1], code[|code|-1];
      CodeAtLeast(before);
      ConvertedAtLeast(last, Evaluated(before).value);
      SizePositive(last);
    }
  }

  lemma SizePositive(i: Instruction)
    ensures Size(i) >= 1
  {
  }

  /** The least size is reached: by a single constant, or a byte cut to fewer
      bits, extended if 64 bits are wanted. */
  lemma Least32Reached(b: UInt32) returns (code: seq<Instruction>)
    ensures Evaluated(code) == Some(Bits32(b)) && CodeSize(code) == Least32(b)
  {
    if FromByte(b) {
      code := CutReached(b);
    } else {
      hide Pushed, Converted, ToInt32, Size, Single32, CodeSize;
      var i := if b == TWO32 - 1 then Instruction(LDC_I4_M1, 0)
               else if b <= 8 then Instruction(LDC_I4_0 + b, 0)
               else if b <= 127 || b >= 0xFFFF_FF80 then Instruction(LDC_I4_S, ToSignedChar(b % 256))
               else Instruction(LDC_I4, b);
      code := [i];
      UnsignedLoads(b, i);
      SingleIsLeast(b);
      OneSize(code);
    }
  }

  /** A negative byte, cut without a sign. */
  lemma CutReached(b: UInt32) returns (code: seq<Instruction>)
    requires FromByte(b)
    ensures Evaluated(code) == Some(Bits32(b)) && CodeSize(code) == Least32(b)
  {
    hide ToInt32, Single32, CodeSize, FromByte;
    var byte := if b < 256 then b - 256 else b - 65536;
    CutByte(b, byte);
    var i := if byte == -1 then Instruction(LDC_I4_M1, 0) else Instruction(LDC_I4_S, byte);
    var cut := Instruction(if b < 256 then CONV_U1 else CONV_U2, 0);
    code := [i] + [cut];
    CodeSizes(i, i, cut);
    assert code[..1] == [i];
  }

  lemma CutByte(b: UInt32, byte: int)
    requires FromByte(b) && byte == if b < 256 then b - 256 else b - 65536
    ensures -128 <= byte <= -1
    ensures byte % TWO32 % (if b < 256 then 0x100 else 0x1_0000) == b
  {
    assert byte % TWO32 == byte + TWO32;
    if b < 256 {
      Low8(byte + TWO32, 0xFF_FFFF, b);
    } else {
      Low16(byte + TWO32, 0xFFFF, b);
    }
  }

  lemma LeastReached(w: Word) returns (code: seq<Instruction>)
    ensures Evaluated(code) == Some(w) && CodeSize(code) == Least(w)
  {
    hide Pushed, ToInt32, Single32;
    match w
    case Bits32(b) =>
      code := Least32Reached(b);
    case Bits64(q) =>
      if q < TWO32 {
        code := Least32Reached(q);
        Appended(code, Instruction(CONV_U8, 0));
        code := code + [Instruction(CONV_U8, 0)];
      } else if q >= TWO64 - TWO31 {
        HighUnsigned(q);
        code := Least32Reached(q % TWO32);
        Appended(code, Instruction(CONV_I8, 0));
        SignedCut(q);
        code := code + [Instruction(CONV_I8, 0)];
      } else {
        LongLoads(q);
        code := [Instruction(LDC_I8, q)];
        CodeSizes(code[0], code[0], code[0]);
      }
  }

  lemma SignedCut(q: UInt64)
    requires q >= TWO64 - TWO31
    ensures ToInt32(q % TWO32) % TWO64 == q
  {
  }

  lemma Appended(code: seq<Instruction>, i: Instruction)
    requires Evaluated(code).Some?
    ensures Evaluated(code + [i]) == Converted(i, Evaluated(code).value)
    ensures CodeSize(code + [i]) == CodeSize(code) + Size(i)
  {
    hide Pushed, Converted;
    assert (code + [i])[..|code|] == code;
  }

  /** A code is a shortest one if and only if it has the least size. */
  lemma ShortestIs(code: seq<Instruction>)
    requires Evaluated(code).Some?
    ensures ShortestCode(code) <==> CodeSize(code) == Least(Evaluated(code).value)
  {
    hide Evaluated, CodeSize, Least;
    CodeAtLeast(code);
    if CodeSize(code) == Least(Evaluated(code).value) {
      forall other | Evaluated(other).Some? && Evaluated(other) == Evaluated(code) ensures CodeSize(code) <= CodeSize(other) {
        CodeAtLeast(other);
      }
    } else {
      var other := LeastReached(Evaluated(code).value);
    }
  }

  /** When a single constant is as short as anything. */
  lemma SingleIsLeast(b: UInt32)
    ensures Single32(b) == Least32(b) <==> !FromByte(b)
  {
  }

  lemma WideLeast(q: UInt64)
    ensures q < TWO32 ==> Least(Bits64(q)) == Least32(q) + 1
    ensures q >= TWO64 - TWO31 ==> Least(Bits64(q)) == Least32(q % TWO32) + 1
    ensures TWO32 <= q < TWO64 - TWO31 ==> Least(Bits64(q)) == 9
    ensures Least32(q % TWO32) <= 5
  {
    hide Least32;
    SmallWords(q % TWO32);
  }

  /** The low bits of a signed value are those of its byte values only. */
  lemma LowOfSigned(v: Int64)
    requires -TWO31 <= v < TWO31
    ensures v % TWO64 % TWO32 == v % TWO32 && (FromByte(v % TWO32) <==> FromByte(v))
    ensures v % TWO64 < TWO32 ==> v % TWO64 == v
    ensures v % TWO64 < TWO32 || v % TWO64 >= TWO64 - TWO31
  {
  }

  lemma LongSigned(v: Int64)
    requires !(-TWO31 <= v < TWO31)
    ensures !FromByte(v)
    ensures TWO31 <= v < TWO32 ==> v % TWO64 == v && v % TWO32 == v
    ensures !(TWO31 <= v < TWO32) ==> TWO32 <= v % TWO64 < TWO64 - TWO31
  {
  }

  lemma LargeValue(v: UInt64)
    ensures v >= TWO32 ==> !FromByte(v)
    ensures v < TWO32 ==> v % TWO32 == v
  {
  }

  lemma HighLow(v: UInt64)
    requires v >= -TWO31 % TWO64
    ensures v >= TWO64 - TWO31 && ToInt32(v) % TWO32 == v % TWO32 && !FromByte(v % TWO32)
  {
    HighUnsigned(v);
  }

  lemma OneSize(code: seq<Instruction>)
    requires |code| == 1
    ensures CodeSize(code) == Size(code[0])
  {
    CodeSizes(code[0], code[0], code[0]);
    assert code == [code[0]];
  }

  lemma CodeSizes(i: Instruction, j: Instruction, k: Instruction)
    ensures CodeSize([i]) == Size(i) && CodeSize([j] + [k]) == Size(j) + Size(k)
  {
    assert CodeSize([]) == 0;
    assert [i][..0] == [] && [j][..0] == [] && ([j] + [k])[..1] == [j];
    assert CodeSize([j]) == CodeSize([]) + Size(j);
  }

  /** The unsigned values that a sign-extended byte stands for. */
  lemma ByteBack(v: UInt32)
    requires v <= 127 || v >= 0xFFFF_FF80
    ensures ToSignedChar(v % 256) % TWO32 == v
    ensures ToInt32(v) == ToSignedChar(v % 256)
  {
  }

  /** The constant instruction for an unsigned value. */
  lemma UnsignedLoads(v: UInt32, i: Instruction)
    requires i == if v == TWO32 - 1 then Instruction(LDC_I4_M1, 0)
                  else if v <= 8 then Instruction(LDC_I4_0 + v, 0)
                  else if v <= 127 || v >= 0xFFFF_FF80 then Instruction(LDC_I4_S, ToSignedChar(v % 256))
                  else Instruction(LDC_I4, v)
    ensures Pushed(i) == Some(Bits32(v)) && Size(i) == Single32(v)
  {
    if v <= 127 || v >= 0xFFFF_FF80 {
      ByteBack(v);
    }
  }

  /** The assembly output of a method. */
  class AsmOutput {
    var code: seq<Instruction>

    constructor ()
      ensures code == []
    {
      code := [];
    }

    method Gen(opcode: nat, arg: int)
      modifies this
      ensures code == old(code) + [Instruction(opcode, arg)]
    {
      code := code + [Instruction(opcode, arg)];
    }

    /** What has been emitted since. */
    ghost function Since(before: seq<Instruction>): (r: seq<Instruction>)
      reads this
      requires before <= code
    {
      code[|before|..]
    }

    /** `ILGenInt32`: the shortest code, but for a negative byte cut to fewer
        bits. */
    method ILGenInt32(value: Int32)
      modifies this
      ensures old(code) <= code && Evaluated(Since(old(code))) == Some(Bits32(value % TWO32))
      ensures |Since(old(code))| == 1 && CodeSize(Since(old(code))) == Single32(value % TWO32)
      ensures ShortestCode(Since(old(code))) <==> !FromByte(value)
    {
      hide ShortestCode, ToInt32, CodeSize, Least32;
      ghost var before := code;
      SignedBack(value);
      SingleIsLeast(value % TWO32);
      LowOfSigned(value);
      if value == -1 {
        Gen(LDC_I4_M1, 0);
      } else if 0 <= value <= 8 {
        Gen(LDC_I4_0 + value, 0);
      } else if -128 <= value <= 127 {
        Gen(LDC_I4_S, value);
      } else {
        Gen(LDC_I4, value % TWO32);
      }
      OneSize(Since(before));
      ShortestIs(Since(before));
    }

    /** `ILGenUInt32` */
    method ILGenUInt32(value: UInt32)
      modifies this
      ensures old(code) <= code && Evaluated(Since(old(code))) == Some(Bits32(value))
      ensures |Since(old(code))| == 1 && CodeSize(Since(old(code))) == Single32(value)
      ensures ShortestCode(Since(old(code))) <==> !FromByte(value)
    {
      hide ShortestCode, CodeSize, Least32, Pushed, Size, Single32, ToInt32;
      ghost var before := code;
      SingleIsLeast(value);
      if value == TWO32 - 1 {
        Gen(LDC_I4_M1, 0);
      } else if value <= 8 {
        Gen(LDC_I4_0 + value, 0);
      } else if value <= 127 || value >= 0xFFFF_FF80 {
        Gen(LDC_I4_S, ToSignedChar(value % 256));
      } else {
        Gen(LDC_I4, value);
      }
      UnsignedLoads(value, Since(before)[0]);
      OneSize(Since(before));
      ShortestIs(Since(before));
    }

    /** Adds a conversion to 64 bits. */
    method Widen(opcode: nat, ghost before: seq<Instruction>)
      requires before <= code && |Since(before)| == 1 && (opcode == CONV_I8 || opcode == CONV_U8)
      requires Evaluated(Since(before)).Some? && Evaluated(Since(before)).value.Bits32?
      modifies this
      ensures before <= code && CodeSize(Since(before)) == CodeSize(old(Since(before))) + 1
      ensures var b := Evaluated(old(Since(before))).value.b;
              Evaluated(Since(before)) == Some(Bits64(if opcode == CONV_I8 then ToInt32(b) % TWO64 else b))
    {
      ghost var short := Since(before);
      Widened(short, Instruction(opcode, 0));
      Gen(opcode, 0);
      assert Since(before) == short + [Instruction(opcode, 0)];
    }

    /** `ILGenInt64`: the same, and the values of 32 bits that are not values of
        32 bits with a sign are not shortened. */
    method ILGenInt64(value: Int64)
      modifies this
      ensures old(code) <= code && Evaluated(Since(old(code))) == Some(Bits64(value % TWO64))
      ensures ShortestCode(Since(old(code))) <==> !FromByte(value) && !(TWO31 <= value < TWO32)
    {
      hide Evaluated, ToInt32, ShortestCode, CodeSize, Least, Least32, Single32, FromByte;
      ghost var before := code;
      if -TWO31 <= value < TWO31 {
        ILGenInt32(value);
        SignedBack(value);
        Widen(CONV_I8, before);
        LowOfSigned(value);
        SingleIsLeast(value % TWO32);
        WideLeast(value % TWO64);
        ShortestIs(Since(before));
      } else {
        Gen(LDC_I8, value % TWO64);
        LongSigned(value);
        WideLeast(value % TWO64);
        LongLoads(value % TWO64);
        assert Since(before) == [Instruction(LDC_I8, value % TWO64)];
        OneSize(Since(before));
        ShortestIs(Since(before));
      }
    }

    /** `ILGenUInt64`: the second test compares an unsigned value with a
        negative number, which C converts to unsigned. */
    method ILGenUInt64(value: UInt64)
      modifies this
      ensures old(code) <= code && Evaluated(Since(old(code))) == Some(Bits64(value))
      ensures ShortestCode(Since(old(code))) <==> !FromByte(value)
    {
      hide Evaluated, ToInt32, ShortestCode, CodeSize, Least, Least32, Single32, FromByte;
      ghost var before := code;
      WideLeast(value);
      LargeValue(value);
      if value < TWO32 {
        SingleIsLeast(value);
        ILGenUInt32(value);
        Widen(CONV_U8, before);
        ShortestIs(Since(before));
      } else if value >= -TWO31 % TWO64 {
        HighUnsigned(value);
        HighLow(value);
        SingleIsLeast(value % TWO32);
        ILGenInt32(ToInt32(value));
        SignedBack(ToInt32(value));
        Widen(CONV_I8, before);
        ShortestIs(Since(before));
      } else {
        Gen(LDC_I8, value);
        LongLoads(value);
        assert Since(before) == [Instruction(LDC_I8, value)];
        OneSize(Since(before));
        ShortestIs(Since(before));
      }
    }

    /** The short, byte and prefixed forms share their case analysis; the
        prefixed one cuts the index to 16 bits. */
    method ILGenLoadLocal(num: UInt32)
      modifies this
      ensures |code| == |old(code)| + 1 && old(code) <= code
      ensures Accessed(code[|old(code)|]) == Some(LoadLocal(num % 0x1_0000))
    {
      if num < 4 {
        Gen(LDLOC_0 + num, 0);
      } else if num < 256 {
        Gen(LDLOC_S, num);
      } else {
        Gen(PREFIX + P_LDLOC, num % 0x1_0000);
      }
    }

    method ILGenStoreLocal(num: UInt32)
      modifies this
      ensures |code| == |old(code)| + 1 && old(code) <= code
      ensures Accessed(code[|old(code)|]) == Some(StoreLocal(num % 0x1_0000))
    {
      if num < 4 {
        Gen(STLOC_0 + num, 0);
      } else if num < 256 {
        Gen(STLOC_S, num);
      } else {
        Gen(PREFIX + P_STLOC, num % 0x1_0000);
      }
    }

    method ILGenLoadLocalAddr(num: UInt32)
      modifies this
      ensures |code| == |old(code)| + 1 && old(code) <= code
      ensures Accessed(code[|old(code)|]) == Some(LocalAddress(num % 0x1_0000))
    {
      if num < 256 {
        Gen(LDLOCA_S, num);
      } else {
        Gen(PREFIX + P_LDLOCA, num % 0x1_0000);
      }
    }

    method ILGenLoadArg(num: UInt32)
      modifies this
      ensures |code| == |old(code)| + 1 && old(code) <= code
      ensures Accessed(code[|old(code)|]) == Some(LoadArg(num % 0x1_0000))
    {
      if num < 4 {
        Gen(LDARG_0 + num, 0);
      } else if num < 256 {
        Gen(LDARG_S, num);
      } else {
        Gen(PREFIX + P_LDARG, num % 0x1_0000);
      }
    }

    method ILGenStoreArg(num: UInt32)
      modifies this
      ensures |code| == |old(code)| + 1 && old(code) <= code
      ensures Accessed(code[|old(code)|]) == Some(StoreArg(num % 0x1_0000))
    {
      if num < 256 {
        Gen(STARG_S, num);
      } else {
        Gen(PREFIX + P_STARG, num % 0x1_0000);
      }
    }

    method ILGenLoadArgAddr(num: UInt32)
      modifies this
      ensures |code| == |old(code)| + 1 && old(code) <= code
      ensures Accessed(code[|old(code)|]) == Some(ArgAddress(num % 0x1_0000))
    {
      if num < 256 {
        Gen(LDARGA_S, num);
      } else {
        Gen(PREFIX + P_LDARGA, num % 0x1_0000);
      }
    }

    /** `JavaGenInt32` */
    method JavaGenInt32(value: Int32)
      modifies this
      ensures old(code) <= code && JavaEvaluated(Since(old(code))) == Some(Bits32(value % TWO32))
      ensures |Since(old(code))| == 1
    {
      if -1 <= value <= 5 {
        Gen(ICONST_0 + value, 0);
      } else if -128 <= value <= 127 {
        Gen(BIPUSH, value);
      } else if -32768 <= value <= 32767 {
        Gen(SIPUSH, value);
      } else {
        Gen(JAVA_LDC, value);
      }
    }

    /** `JavaGenUInt32` */
    method JavaGenUInt32(value: UInt32)
      modifies this
      ensures old(code) <= code && JavaEvaluated(Since(old(code))) == Some(Bits32(value))
    {
      JavaGenInt32(ToInt32(value));
    }

    /** `JavaGenInt64` */
    method JavaGenInt64(value: Int64)
      modifies this
      ensures old(code) <= code && JavaEvaluated(Since(old(code))) == Some(Bits64(value % TWO64))
    {
      hide ToInt32, JavaPushed;
      ghost var before := code;
      JavaSmall();
      if value == 0 {
        Gen(LCONST_0, 0);
      } else if value == 1 {
        Gen(LCONST_1, 0);
      } else if -TWO31 <= value < TWO31 {
        JavaGenInt32(value);
        SignedBack(value);
        ghost var short := Since(before);
        JavaWidened(short, Instruction(I2L, 0));
        Gen(I2L, 0);
        assert Since(before) == short + [Instruction(I2L, 0)];
      } else {
        Halves(value);
        Gen(LDC2_W, (value / TWO32) % TWO32 * TWO32 + value % TWO32);
        LongLoads(value % TWO64);
      }
    }

    /** `JavaGenUInt64` */
    method JavaGenUInt64(value: UInt64)
      modifies this
      ensures old(code) <= code && JavaEvaluated(Since(old(code))) == Some(Bits64(value))
    {
      JavaGenInt64(ToInt64(value));
    }
  }
}
