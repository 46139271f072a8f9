/** Where the ART arm64 calling convention puts the arguments of a hooked method, and reading
    and writing them in the saved registers and stack. */
module ArgSlots {
  import opened Common
  import opened Bytes

  type UInt64 = x: nat | x < TWO64

  datatype Kind = GpReg | FpReg | Stack

  datatype Slot = Slot(kind: Kind, reg: nat, offset: nat, typeCh: char, wide: bool)

  /** The part of a call frame that the convention depends on. */
  datatype Signature = Signature(isStatic: bool, argTypes: seq<string>)
  {
    function TypeCh(i: nat): char {
      if i < |argTypes| && argTypes[i] != "" then argTypes[i][0] else 'I'
    }
  }

  predicate IsWide(t: char) { t == 'J' || t == 'D' }

  predicate IsFp(t: char) { t == 'F' || t == 'D' }

  predicate IsReference(t: char) { t == 'L' || t == '[' }

  // ----- Slot allocation -----

  /** The next free register of each file and the next free stack byte. */
  datatype Cursor = Cursor(gp: nat, fp: nat, offset: nat)

  function Place(c: Cursor, t: char): Slot {
    if IsFp(t) then
      if c.fp < 8 then Slot(FpReg, c.fp, c.offset, t, IsWide(t)) else Slot(Stack, 0, c.offset, t, IsWide(t))
    else
      if c.gp <= 7 then Slot(GpReg, c.gp, c.offset, t, IsWide(t)) else Slot(Stack, 0, c.offset, t, IsWide(t))
  }

  function Advance(c: Cursor, t: char): Cursor {
    Cursor(if !IsFp(t) && c.gp <= 7 then c.gp + 1 else c.gp,
           if IsFp(t) && c.fp < 8 then c.fp + 1 else c.fp,
           c.offset + if IsWide(t) then 8 else 4)
  }

  function Start(isStatic: bool): Cursor {
    if isStatic then Cursor(1, 0, 8) else Cursor(2, 0, 12)
  }

  function CursorAt(sig: Signature, i: nat): Cursor {
    if i == 0 then Start(sig.isStatic) else Advance(CursorAt(sig, i - 1), sig.TypeCh(i - 1))
  }

  function SlotOf(sig: Signature, i: nat): Slot {
    Place(CursorAt(sig, i), sig.TypeCh(i))
  }

  method ComputeArtArgSlot(sig: Signature, index: int) returns (slot: Slot)
    ensures index >= 0 ==> slot == SlotOf(sig, index)
    ensures index < 0 ==> slot == Slot(Stack, 0, 8, 'I', false)
  {
    hide CursorAt;
    CursorStep(sig, 0);
    var gpIdx, fpIdx, stackOff := if sig.isStatic then 1 else 2, 0, 8 + if sig.isStatic then 0 else 4;
    var i := 0;
    while i <= index
      invariant 0 <= i && (i <= index || i == 0)
      invariant gpIdx >= 0 && fpIdx >= 0 && Cursor(gpIdx, fpIdx, stackOff) == CursorAt(sig, i)
      decreases index - i
    {
      var t := sig.TypeCh(i);
      var wide := t == 'J' || t == 'D';
      var fp := t == 'F' || t == 'D';
      CursorStep(sig, i + 1);
      if fp {
        if fpIdx < 8 {
          slot := Slot(FpReg, fpIdx, stackOff, t, wide);
          fpIdx := fpIdx + 1;
        } else {
          slot := Slot(Stack, 0, stackOff, t, wide);
        }
      } else {
        if gpIdx <= 7 {
          slot := Slot(GpReg, gpIdx, stackOff, t, wide);
          gpIdx := gpIdx + 1;
        } else {
          slot := Slot(Stack, 0, stackOff, t, wide);
        }
      }
      stackOff := stackOff + if wide then 8 else 4;
      if i == index { return slot; }
      i := i + 1;
    }
    return Slot(Stack, 0, 8, 'I', false);
  }

  lemma CursorStep(sig: Signature, i: nat)
    ensures i == 0 ==> CursorAt(sig, i) == Start(sig.isStatic)
    ensures i > 0 ==> CursorAt(sig, i) == Advance(CursorAt(sig, i - 1), sig.TypeCh(i - 1))
  {
    hide Advance;
  }

  /** How many of the first i arguments have one of these type letters. */
  function CountOf(sig: Signature, i: nat, letters: string): nat {
    if i == 0 then 0 else CountOf(sig, i - 1, letters) + if sig.TypeCh(i - 1) in letters then 1 else 0
  }

  lemma {:induction false} CursorCounts(sig: Signature, i: nat)
    ensures var c, fps := CursorAt(sig, i), CountOf(sig, i, "FD");
      var gp := (if sig.isStatic then 1 else 2) + i - fps;
      && fps <= i
      && c.fp == (if fps < 8 then fps else 8) && c.gp == (if gp <= 8 then gp else 8)
      && c.offset == (if sig.isStatic then 8 else 12) + 4 * i + 4 * CountOf(sig, i, "JD")
  {
    if i > 0 { CursorCounts(sig, i - 1); }
  }

  /** Where an argument lies, counted from the types before it alone: the stack bytes of all arguments
      follow each other, four each and eight for wide ones, and each of the two register files is
      filled in order while it lasts. */
  lemma SlotIs(sig: Signature, i: nat)
    ensures var s, fps := SlotOf(sig, i), CountOf(sig, i, "FD");
      var t := if i < |sig.argTypes| && sig.argTypes[i] != "" then sig.argTypes[i][0] else 'I';
      var gp := (if sig.isStatic then 1 else 2) + i - fps;
      && s.typeCh == t && s.wide == (t in "JD")
      && s.offset == (if sig.isStatic then 8 else 12) + 4 * i + 4 * CountOf(sig, i, "JD")
      && (t in "FD" ==> s.kind == if fps < 8 then FpReg else Stack)
      && (t !in "FD" ==> s.kind == if gp <= 7 then GpReg else Stack)
      && s.reg == (if s.kind == FpReg then fps else if s.kind == GpReg then gp else 0)
  {
    hide CursorAt;
    CursorCounts(sig, i);
  }

  /** The number of stack bytes a slot owns. */
  function Width(s: Slot): nat { if s.wide then 8 else 4 }

  lemma {:induction false} CursorInRange(sig: Signature, i: nat)
    ensures var c, c0 := CursorAt(sig, i), Start(sig.isStatic);
      c0.gp <= c.gp <= 8 && c.fp <= 8 && c0.offset <= c.offset
  {
    if i > 0 {
      CursorInRange(sig, i - 1);
    }
  }

  lemma {:induction false} CursorAdvances(sig: Signature, i: nat, j: nat)
    requires i < j
    ensures var s, c := SlotOf(sig, i), CursorAt(sig, j);
      && s.offset + Width(s) <= c.offset
      && (s.kind == GpReg ==> s.reg < c.gp)
      && (s.kind == FpReg ==> s.reg < c.fp)
    decreases j
  {
    hide CursorAt;
    CursorStep(sig, j);
    if i < j - 1 {
      CursorAdvances(sig, i, j - 1);
    }
  }

  /** Two slots that share no register and no stack byte. */
  predicate Apart(s: Slot, t: Slot) {
    && (s.kind == t.kind && s.kind != Stack ==> s.reg != t.reg)
    && (s.offset + Width(s) <= t.offset || t.offset + Width(t) <= s.offset)
  }

  /** A slot lies where arguments may be: not in the method header, the slot of `this`, or a
      register outside the argument registers. */
  predicate InRange(isStatic: bool, s: Slot) {
    && (s.kind == GpReg ==> (if isStatic then 1 else 2) <= s.reg <= 7)
    && (s.kind == FpReg ==> s.reg < 8)
    && (if isStatic then 8 else 12) <= s.offset
  }

  lemma SlotsAreApart(sig: Signature, i: nat, j: nat)
    ensures InRange(sig.isStatic, SlotOf(sig, i))
    ensures i != j ==> Apart(SlotOf(sig, i), SlotOf(sig, j))
  {
    hide CursorAt;
    CursorInRange(sig, i);
    if i < j {
      CursorAdvances(sig, i, j);
    } else if j < i {
      CursorAdvances(sig, j, i);
    }
  }

  // ----- The saved machine state -----

  /** Registers x0 to x30, the bit patterns of d0 to d7, and the bytes from the entry stack
      pointer on. */
  datatype Machine = Machine(r: seq<UInt64>, d: seq<UInt64>, stack: ByteString)

  /** The slot's registers and stack bytes exist. */
  predicate Holds(m: Machine, s: Slot) {
    && |m.r| == 31 && |m.d| == 8 && s.offset + Width(s) <= |m.stack|
    && (s.kind == GpReg ==> s.reg < 31) && (s.kind == FpReg ==> s.reg < 8)
  }

  /** The low `half * 2` values of v as a signed number, extended to 64 bits. */
  function SignExtend(v: nat, half: nat): (x: UInt64)
    requires 0 < half <= 0x8000_0000
  {
    var low := v % (2 * half);
    if low < half then low else low + (TWO64 - 2 * half)
  }

  /** What the 32 bits of a stack slot mean for a type. */
  function FromStack32(t: char, v: nat): UInt64
    requires v < TWO32
  {
    if t == 'I' then SignExtend(v, 0x8000_0000)
    else if t == 'S' then SignExtend(v, 0x8000)
    else if t == 'B' then SignExtend(v, 0x80)
    else v
  }

  function Get(m: Machine, s: Slot): UInt64
    requires Holds(m, s)
  {
    Pow256Values();
    match s.kind
    case FpReg => m.d[s.reg]
    case GpReg => if IsReference(s.typeCh) then m.r[s.reg] % TWO32 else m.r[s.reg]
    case Stack =>
      if s.wide then FromLittleEndian(m.stack[s.offset..s.offset + 8])
      else FromStack32(s.typeCh, FromLittleEndian(m.stack[s.offset..s.offset + 4]))
  }

  /** Overwrites part of a sequence. */
  function Patch<T>(s: seq<T>, at: nat, b: seq<T>): (r: seq<T>)
    requires at + |b| <= |s|
    ensures |r| == |s|
  {
    s[..at] + b + s[at + |b|..]
  }

  function Mirror(m: Machine, s: Slot, v: UInt64): ByteString
    requires Holds(m, s)
  {
    Patch(m.stack, s.offset, if s.wide then LittleEndian(v, 8) else LittleEndian(v % TWO32, 4))
  }

  function Set(m: Machine, s: Slot, v: UInt64): Machine
    requires Holds(m, s)
  {
    match s.kind
    case FpReg => m.(d := m.d[s.reg := v])
    case GpReg => m.(r := m.r[s.reg := v], stack := Mirror(m, s, v))
    case Stack => m.(stack := Mirror(m, s, v))
  }

  // ----- Reading back what was written -----

  /** What an argument can hold of a 64-bit value: all of it in a floating-point register or a
      wide slot; a reference keeps 32 bits; a narrow stack slot keeps the bits of its type, sign
      extended for the signed ones. */
  function Narrow(s: Slot, v: UInt64): UInt64 {
    if s.kind == FpReg then v
    else if s.kind == GpReg then (if IsReference(s.typeCh) then v % TWO32 else v)
    else if s.wide then v
    else if s.typeCh == 'I' then SignExtend(v, 0x8000_0000)
    else if s.typeCh == 'S' then SignExtend(v, 0x8000)
    else if s.typeCh == 'B' then SignExtend(v, 0x80)
    else v % TWO32
  }

  lemma SignExtendLow(v: nat, half: nat)
    requires half == 0x80 || half == 0x8000 || half == 0x8000_0000
    ensures SignExtend(v % TWO32, half) == SignExtend(v, half)
  {
    ModMod(v, 0x100, 0x100_0000);
    ModMod(v, 0x1_0000, 0x1_0000);
    ModMod(v, TWO32, 1);
  }

  lemma ModMod(v: nat, m: nat, k: nat)
    requires (m == 0x100 && k == 0x100_0000) || (m == 0x1_0000 && k == 0x1_0000) || (m == TWO32 && k == 1)
    ensures v % TWO32 % m == v % m
  {
    var q, low := v / TWO32, v % TWO32;
    if m == 0x100 {
      DivModIs(v, 0x100_0000 * q + low / 0x100, low % 0x100, 0x100);
    } else if m == 0x1_0000 {
      DivModIs(v, 0x1_0000 * q + low / 0x1_0000, low % 0x1_0000, 0x1_0000);
    }
  }

  lemma PatchAt<T>(s: seq<T>, at: nat, b: seq<T>)
    requires at + |b| <= |s|
    ensures Patch(s, at, b)[at..at + |b|] == b
  {
  }

  lemma PatchElsewhere<T>(s: seq<T>, at: nat, b: seq<T>, lo: nat, hi: nat)
    requires at + |b| <= |s| && lo <= hi <= |s| && (hi <= at || at + |b| <= lo)
    ensures Patch(s, at, b)[lo..hi] == s[lo..hi]
  {
  }

  lemma GetAfterSet(m: Machine, s: Slot, v: UInt64)
    requires Holds(m, s)
    ensures Holds(Set(m, s, v), s) && Get(Set(m, s, v), s) == Narrow(s, v)
  {
    hide LittleEndian, FromLittleEndian, Patch, SignExtend;
    if s.kind == Stack {
      Pow256Values();
      if s.wide {
        LittleEndianRoundTrip(v, 8);
        PatchAt(m.stack, s.offset, LittleEndian(v, 8));
      } else {
        LittleEndianRoundTrip(v % TWO32, 4);
        PatchAt(m.stack, s.offset, LittleEndian(v % TWO32, 4));
        SignExtendLow(v, 0x80);
        SignExtendLow(v, 0x8000);
        SignExtendLow(v, 0x8000_0000);
      }
    }
  }

  lemma GetAfterOtherSet(m: Machine, s: Slot, v: UInt64, t: Slot)
    requires Holds(m, s) && Holds(m, t) && Apart(s, t)
    ensures Holds(Set(m, s, v), t) && Get(Set(m, s, v), t) == Get(m, t)
  {
    hide LittleEndian, FromLittleEndian, Patch, SignExtend, FromStack32;
    if t.kind == Stack && s.kind != FpReg {
      var b := if s.wide then LittleEndian(v, 8) else LittleEndian(v % TWO32, 4);
      PatchElsewhere(m.stack, s.offset, b, t.offset, t.offset + Width(t));
    }
  }

  /** Nothing but the slot's register and stack bytes has changed; a floating-point register has no
      stack bytes. */
  predicate ElsewhereKept(m: Machine, m': Machine, s: Slot) {
    && |m'.r| == |m.r| && |m'.d| == |m.d| && |m'.stack| == |m.stack|
    && (forall k :: 0 <= k < |m.r| && !(s.kind == GpReg && k == s.reg) ==> m'.r[k] == m.r[k])
    && (forall k :: 0 <= k < |m.d| && !(s.kind == FpReg && k == s.reg) ==> m'.d[k] == m.d[k])
    && (forall k :: 0 <= k < |m.stack| && (s.kind == FpReg || k < s.offset || s.offset + Width(s) <= k) ==>
          m'.stack[k] == m.stack[k])
  }

  /** What is written: the value in the slot's register, and its low bytes, least significant first, in
      the slot's stack bytes unless the register is a floating-point one. */
  lemma SetWrites(m: Machine, s: Slot, v: UInt64, k: nat)
    requires Holds(m, s)
    ensures s.kind == GpReg ==> Set(m, s, v).r[s.reg] == v
    ensures s.kind == FpReg ==> Set(m, s, v).d[s.reg] == v
    ensures s.kind != FpReg && k < Width(s) ==> Set(m, s, v).stack[s.offset + k] == v / Pow256(k) % 256
  {
    hide LittleEndian, Pow256;
    if s.kind != FpReg && k < Width(s) {
      if s.wide {
        LittleEndianByte(v, 8, k);
      } else {
        LittleEndianByte(v % TWO32, 4, k);
        LowByteOf(v, k);
      }
    }
  }

  lemma LowByteOf(v: nat, k: nat)
    requires k < 4
    ensures v % TWO32 / Pow256(k) % 256 == v / Pow256(k) % 256
  {
    hide Pow256;
    Pow256Values();
    Pow256Three();
    var q, low := v / TWO32, v % TWO32;
    if k == 0 {
      DigitKept(v, q, low, 1, 0x100_0000);
    } else if k == 1 {
      DigitKept(v, q, low, 0x100, 0x1_0000);
    } else if k == 2 {
      DigitKept(v, q, low, 0x1_0000, 0x100);
    } else {
      DigitKept(v, q, low, 0x100_0000, 1);
    }
  }

  lemma DigitKept(v: nat, q: nat, low: nat, p: nat, m: nat)
    requires p > 0 && m > 0 && v == q * (p * 256 * m) + low
    ensures v / p % 256 == low / p % 256
  {
    var high: nat := q * 256 * m;
    assert q * (p * 256 * m) == high * p;
    assert v == (high + low / p) * p + low % p;
    DivModIs(v, high + low / p, low % p, p);
    assert high == q * m * 256;
    DivModIs(high + low / p, q * m + low / p / 256, low / p % 256, 256);
  }

  lemma Pow256Three()
    ensures Pow256(0) == 1 && Pow256(3) == 0x100_0000
  {
    assert Pow256(2) == 0x1_0000 by { Pow256Values(); }
  }

  /** The sign extension is the number of that many bits, read as signed, in 64 bits. */
  lemma SignExtendIs(v: nat, half: nat)
    requires 0 < half <= 0x8000_0000
    ensures var x: int := SignExtend(v, half); var n := if x < TWO64 / 2 then x else x - TWO64;
      0 <= n + half && n < half && exists q: int :: v == n + 2 * half * q
  {
    var x: int := SignExtend(v, half);
    var n := if x < TWO64 / 2 then x else x - TWO64;
    var low := v % (2 * half);
    var q := if low < half then v / (2 * half) else v / (2 * half) + 1;
    assert v == 2 * half * (v / (2 * half)) + low;
    assert 2 * half * (v / (2 * half) + 1) == 2 * half * (v / (2 * half)) + 2 * half;
    assert v == n + 2 * half * q;
  }

  lemma SetKeepsElsewhere(m: Machine, s: Slot, v: UInt64)
    requires Holds(m, s)
    ensures ElsewhereKept(m, Set(m, s, v), s)
  {
    hide LittleEndian;
  }

  /** Setting argument i: it reads back narrowed by its type and place, every other argument
      reads as before, and nothing outside its own register and stack bytes changes. */
  lemma SetArgument(sig: Signature, m: Machine, i: nat, j: nat, v: UInt64)
    requires Holds(m, SlotOf(sig, i)) && Holds(m, SlotOf(sig, j))
    ensures var m', s := Set(m, SlotOf(sig, i), v), SlotOf(sig, j);
      && Holds(m', s)
      && Get(m', s) == (if i == j then Narrow(s, v) else Get(m, s))
    ensures ElsewhereKept(m, Set(m, SlotOf(sig, i), v), SlotOf(sig, i))
    ensures OutsideKept(sig.isStatic, m, Set(m, SlotOf(sig, i), v))
  {
    hide SlotOf, Get, Narrow, Patch, LittleEndian, OutsideKept, ElsewhereKept;
    SetKeepsElsewhere(m, SlotOf(sig, i), v);
    SlotsAreApart(sig, i, j);
    GetAfterSet(m, SlotOf(sig, i), v);
    if i != j {
      GetAfterOtherSet(m, SlotOf(sig, i), v, SlotOf(sig, j));
    }
    SetKeepsOutside(sig.isStatic, m, SlotOf(sig, i), v);
  }

  /** The method header, the stack slot and register of `this`, x0 and everything above x7 and
      d7 are as before. */
  predicate OutsideKept(isStatic: bool, m: Machine, m': Machine) {
    && |m'.stack| == |m.stack| && |m'.r| == |m.r| == 31
    && 12 <= |m.stack|
    && m'.stack[..8] == m.stack[..8] && m'.r[0] == m.r[0] && m'.r[8..] == m.r[8..]
    && (!isStatic ==> m'.stack[8..12] == m.stack[8..12] && m'.r[1] == m.r[1])
  }

  lemma SetKeepsOutside(isStatic: bool, m: Machine, s: Slot, v: UInt64)
    requires Holds(m, s) && InRange(isStatic, s)
    ensures OutsideKept(isStatic, m, Set(m, s, v))
  {
    hide LittleEndian, Patch;
    if s.kind != FpReg {
      var b := if s.wide then LittleEndian(v, 8) else LittleEndian(v % TWO32, 4);
      PatchElsewhere(m.stack, s.offset, b, 0, 8);
      if !isStatic {
        PatchElsewhere(m.stack, s.offset, b, 8, 12);
      }
    }
  }

  // ----- The implementation -----

  class CallFrame {
    const sig: Signature
    const argCount: int
    const r: array<UInt64>
    const d: array<UInt64>
    const stack: array<Byte>

    constructor (sig: Signature, argCount: int, r: array<UInt64>, d: array<UInt64>, stack: array<Byte>)
      ensures this.sig == sig && this.argCount == argCount
      ensures this.r == r && this.d == d && this.stack == stack
    {
      this.sig, this.argCount := sig, argCount;
      this.r, this.d, this.stack := r, d, stack;
    }

    ghost function State(): Machine
      reads r, d, stack
    {
      Machine(r[..], d[..], stack[..])
    }

    /** The saved context has its registers, and the stack has a slot for every argument. */
    ghost predicate Valid()
      reads r, d, stack
    {
      && r.Length == 31 && d.Length == 8 && r != d
      && forall i :: 0 <= i < argCount ==> Holds(State(), SlotOf(sig, i))
    }

    method GetArgRaw(index: int) returns (val: UInt64)
      requires Valid()
      ensures val == if 0 <= index < argCount then Get(State(), SlotOf(sig, index)) else 0
    {
      hide SlotOf, FromLittleEndian, FromStack32;
      if index < 0 || index >= argCount { return 0; }
      var slot := ComputeArtArgSlot(sig, index);
      if slot.kind == FpReg {
        return d[slot.reg];
      }
      if slot.kind == GpReg {
        if slot.typeCh == 'L' || slot.typeCh == '[' {
          return r[slot.reg] % TWO32;
        }
        return r[slot.reg];
      }
      Pow256Values();
      var bytes: ByteString;
      if slot.wide {
        bytes := stack[slot.offset..slot.offset + 8];
        assert bytes == State().stack[slot.offset..slot.offset + 8];
        return FromLittleEndian(bytes);
      } else {
        bytes := stack[slot.offset..slot.offset + 4];
        assert bytes == State().stack[slot.offset..slot.offset + 4];
        return FromStack32(slot.typeCh, FromLittleEndian(bytes));
      }
    }

    method StoreBytes(at: nat, b: ByteString)
      requires at + |b| <= stack.Length
      modifies stack
      ensures stack[..] == Patch(old(stack[..]), at, b)
    {
      for i := 0 to |b|
        invariant stack[..at] == old(stack[..at]) && stack[at..at + i] == b[..i]
        invariant stack[at + |b|..] == old(stack[at + |b|..])
      {
        stack[at + i] := b[i];
      }
      assert stack[..] == stack[..at] + stack[at..at + |b|] + stack[at + |b|..];
    }

    method SetArgRaw(index: int, val: UInt64)
      requires Valid()
      modifies r, d, stack
      ensures Valid()
      ensures State() == if 0 <= index < argCount then Set(old(State()), SlotOf(sig, index), val) else old(State())
    {
      hide SlotOf, LittleEndian, Patch;
      if index < 0 || index >= argCount { return; }
      var slot := ComputeArtArgSlot(sig, index);
      if slot.kind == FpReg {
        d[slot.reg] := val;
        return;
      }
      if slot.kind == GpReg {
        r[slot.reg] := val;
      }
      if slot.wide {
        StoreBytes(slot.offset, LittleEndian(val, 8));
      } else {
        StoreBytes(slot.offset, LittleEndian(val % TWO32, 4));
      }
    }
  }
}
