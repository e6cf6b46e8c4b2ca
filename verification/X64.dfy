/**
  Relocating x64 instructions.  Two readings of the same bytes meet here: the processor's,
  which fetches the branch forms below from memory and leaves every other instruction to a
  parameter (a Cpu), and the relocator's decoder (a Decoder), which decides what is
  rewritten and what is copied.  A core is a number that stands for all registers, flags
  and data memory.
 */
module X64 {
  import opened Options
  import M = MemoryAllocator

  type Byte = b: nat | b < 256
  type Memory = nat -> Byte

  const TWO64: nat := 0x1_0000_0000_0000_0000
  const TWO32: nat := 0x1_0000_0000
  const WINDOW: nat := 15

  function Window(mem: Memory, ip: nat): (w: seq<Byte>)
    ensures |w| == WINDOW
  {
    Bytes(mem, ip, WINDOW)
  }

  function Bytes(mem: Memory, ip: nat, n: nat): (w: seq<Byte>)
    ensures |w| == n && forall i {:trigger w[i]} :: 0 <= i < n ==> w[i] == mem(ip + i)
  {
    seq(n, i requires 0 <= i < n => mem(ip + i))
  }

  /** The two's complement number of the low byte. */
  function Signed8(v: int): (r: int)
    ensures -128 <= r < 128 && (v - r) % 256 == 0
  {
    var b := v % 256;
    if b < 128 then b else b - 256
  }

  function Signed32(v: int): (r: int)
    ensures -0x8000_0000 <= r < 0x8000_0000 && (v - r) % 0x1_0000_0000 == 0
  {
    var w := v % TWO32;
    if w < TWO32 / 2 then w else w - TWO32
  }

  function Wrap(v: int): nat {
    v % TWO64
  }

  function FromBytes(s: seq<Byte>): nat {
    if s == [] then 0 else s[0] + 256 * FromBytes(s[1..])
  }

  // ---------------------------------------------------------------- the processor

  /** The branches whose meaning is fixed here, and everything else. */
  datatype Form =
    | ShortJcc(cc: nat, rel: int)
    | ShortJmp(rel: int)
    | NearCall(rel: int)
    | NearJmp(rel: int)
    | NearJcc(cc: nat, rel: int)
    | JmpCell(rel: int)
    | CallCell(rel: int)
    | Other

  function FormOf(w: seq<Byte>): Form
    requires |w| == WINDOW
  {
    if 0x70 <= w[0] <= 0x7F then ShortJcc(w[0] - 0x70, Signed8(w[1]))
    else if w[0] == 0xEB then ShortJmp(Signed8(w[1]))
    else if w[0] == 0xE8 then NearCall(Signed32(FromBytes(w[1..5])))
    else if w[0] == 0xE9 then NearJmp(Signed32(FromBytes(w[1..5])))
    else if w[0] == 0x0F && 0x80 <= w[1] <= 0x8F then NearJcc(w[1] - 0x80, Signed32(FromBytes(w[2..6])))
    else if w[0] == 0xFF && w[1] == 0x25 then JmpCell(Signed32(FromBytes(w[2..6])))
    else if w[0] == 0xFF && w[1] == 0x15 then CallCell(Signed32(FromBytes(w[2..6])))
    else Other
  }

  datatype Next = Fall(core: nat) | Jump(to: nat, core: nat) | Call(to: nat, core: nat)

  /**
    What the other instructions are: how long, and what they do at an address.  `holds`
    says which condition codes a core satisfies.
   */
  datatype Cpu = Cpu(length: seq<Byte> -> nat, run: (seq<Byte>, nat, nat) -> Next, holds: (nat, nat) -> bool)

  function Length(cpu: Cpu, w: seq<Byte>): nat
    requires |w| == WINDOW
  {
    match FormOf(w)
    case ShortJcc(_, _) => 2
    case ShortJmp(_) => 2
    case NearCall(_) => 5
    case NearJmp(_) => 5
    case Other => cpu.length(w)
    case _ => 6
  }

  /** What is assumed of a processor: an instruction is decided by its own bytes. */
  ghost predicate Decided(cpu: Cpu) {
    && (forall w: seq<Byte> {:trigger cpu.length(w)} :: |w| == WINDOW ==> 1 <= cpu.length(w) <= WINDOW)
    && (forall w: seq<Byte>, v: seq<Byte> {:trigger FormOf(w), FormOf(v)} ::
          |w| == |v| == WINDOW && FormOf(w) == Other && cpu.length(w) <= WINDOW && w[..cpu.length(w)] <= v ==>
            FormOf(v) == Other && cpu.length(v) == cpu.length(w))
  }

  function LengthAt(cpu: Cpu, mem: Memory, ip: nat): nat {
    Length(cpu, Window(mem, ip))
  }

  function After(cpu: Cpu, mem: Memory, ip: nat): nat {
    ip + LengthAt(cpu, mem, ip)
  }

  function CellAt(mem: Memory, at: nat): nat {
    FromBytes(Bytes(mem, at, 8))
  }

  /** One step of the processor.  Falling through means going on after the instruction. */
  function Step(cpu: Cpu, mem: Memory, ip: nat, core: nat): Next {
    var next := After(cpu, mem, ip);
    match FormOf(Window(mem, ip))
    case ShortJcc(cc, rel) => if cpu.holds(cc, core) then Jump(Wrap(next + rel), core) else Fall(core)
    case NearJcc(cc, rel) => if cpu.holds(cc, core) then Jump(Wrap(next + rel), core) else Fall(core)
    case ShortJmp(rel) => Jump(Wrap(next + rel), core)
    case NearJmp(rel) => Jump(Wrap(next + rel), core)
    case NearCall(rel) => Call(Wrap(next + rel), core)
    case JmpCell(rel) => Jump(CellAt(mem, Wrap(next + rel)), core)
    case CallCell(rel) => Call(CellAt(mem, Wrap(next + rel)), core)
    case Other => cpu.run(Bytes(mem, ip, LengthAt(cpu, mem, ip)), ip, core)
  }

  /** n steps lead from one place to another without calling anything. */
  predicate Reaches(cpu: Cpu, mem: Memory, ip: nat, core: nat, ip': nat, core': nat, n: nat)
    decreases n
  {
    if n == 0 then ip == ip' && core == core'
    else
      match Step(cpu, mem, ip, core)
      case Fall(c) => Reaches(cpu, mem, After(cpu, mem, ip), c, ip', core', n - 1)
      case Jump(to, c) => Reaches(cpu, mem, to, c, ip', core', n - 1)
      case Call(_, _) => false
  }

  lemma {:induction false} ReachesOn(cpu: Cpu, mem: Memory, ip: nat, core: nat, mid: nat, c: nat, ip': nat, core': nat, m: nat, n: nat)
    requires Reaches(cpu, mem, ip, core, mid, c, m) && Reaches(cpu, mem, mid, c, ip', core', n)
    ensures Reaches(cpu, mem, ip, core, ip', core', m + n)
    decreases m
  {
    hide Step;
    if m == 0 {
    } else {
      match Step(cpu, mem, ip, core)
      case Fall(c1) => ReachesOn(cpu, mem, After(cpu, mem, ip), c1, mid, c, ip', core', m - 1, n);
      case Jump(to, c1) => ReachesOn(cpu, mem, to, c1, mid, c, ip', core', m - 1, n);
    }
  }

  lemma ReachesHere(cpu: Cpu, mem: Memory, ip: nat, core: nat)
    ensures Reaches(cpu, mem, ip, core, ip, core, 0)
  {
  }

  lemma ReachesStep(cpu: Cpu, mem: Memory, ip: nat, core: nat)
    ensures var s := Step(cpu, mem, ip, core);
      && (s.Fall? ==> Reaches(cpu, mem, ip, core, After(cpu, mem, ip), s.core, 1))
      && (s.Jump? ==> Reaches(cpu, mem, ip, core, s.to, s.core, 1))
  {
    hide Step;
  }

  // ---------------------------------------------------------------- bytes in memory

  function ToBytes(v: nat, n: nat): (s: seq<Byte>)
    ensures |s| == n
  {
    if n == 0 then [] else [v % 256] + ToBytes(v / 256, n - 1)
  }

  function Pow256(n: nat): nat {
    if n == 0 then 1 else 256 * Pow256(n - 1)
  }

  lemma {:induction false} BytesRoundTrip(v: nat, n: nat)
    requires v < Pow256(n)
    ensures FromBytes(ToBytes(v, n)) == v
  {
    if n == 0 {
    } else {
      BytesRoundTrip(v / 256, n - 1);
      assert ToBytes(v, n)[1..] == ToBytes(v / 256, n - 1);
    }
  }

  /** Little-endian numbers of one length are equal only if their bytes are. */
  lemma {:induction false} BytesInjective(a: seq<Byte>, b: seq<Byte>)
    requires |a| == |b| && FromBytes(a) == FromBytes(b)
    ensures a == b
  {
    if a == [] {
    } else {
      BytesInjective(a[1..], b[1..]);
      assert a == [a[0]] + a[1..] && b == [b[0]] + b[1..];
    }
  }

  lemma Cell(target: nat)
    requires target < TWO64
    ensures FromBytes(ToBytes(target, 8)) == target
  {
    assert Pow256(8) == 256 * 256 * 256 * 256 * Pow256(4);
    assert Pow256(4) == 0x1_0000_0000;
    BytesRoundTrip(target, 8);
  }

  predicate Holds(mem: Memory, at: nat, bytes: seq<Byte>) {
    forall i :: at <= i < at + |bytes| ==> mem(i) == bytes[i - at]
  }

  lemma HoldsParts(mem: Memory, at: nat, a: seq<Byte>, b: seq<Byte>)
    ensures Holds(mem, at, a + b) <==> Holds(mem, at, a) && Holds(mem, at + |a|, b)
  {
    if Holds(mem, at, a + b) {
      forall i | at <= i < at + |a|
        ensures mem(i) == a[i - at]
      {
        assert (a + b)[i - at] == a[i - at];
      }
      forall i | at + |a| <= i < at + |a| + |b|
        ensures mem(i) == b[i - (at + |a|)]
      {
        assert (a + b)[i - at] == b[i - at - |a|];
      }
    }
  }

  lemma HoldsBytes(mem: Memory, at: nat, bytes: seq<Byte>)
    requires Holds(mem, at, bytes)
    ensures Bytes(mem, at, |bytes|) == bytes
  {
    forall i | 0 <= i < |bytes|
      ensures Bytes(mem, at, |bytes|)[i] == bytes[i]
    {
      assert mem(at + i) == bytes[at + i - at];
    }
  }

  /** The window at a place begins with what stands there. */
  lemma WindowStarts(mem: Memory, at: nat, bytes: seq<Byte>)
    requires Holds(mem, at, bytes) && |bytes| <= WINDOW
    ensures bytes <= Window(mem, at)
  {
    HoldsBytes(mem, at, bytes);
    assert forall i :: 0 <= i < |bytes| ==> Window(mem, at)[i] == Bytes(mem, at, |bytes|)[i];
  }

  // ---------------------------------------------------------------- the emitted forms

  function JmpAbsolute(target: nat): (s: seq<Byte>)
    ensures |s| == 14
  {
    [0xFF, 0x25, 0, 0, 0, 0] + ToBytes(target, 8)
  }

  lemma SmallDisp(disp: Byte)
    requires disp < 128
    ensures Signed32(FromBytes([disp, 0, 0, 0])) == disp
  {
    assert [disp, 0, 0, 0][1..] == [0, 0, 0] && [0, 0, 0][1..] == [0, 0] && [0, 0][1..] == [0] && [0][1..] == [];
  }

  /** An emitted jump or call through a cell. */
  lemma CellForm(mem: Memory, at: nat, modrm: Byte, disp: Byte)
    requires (modrm == 0x25 || modrm == 0x15) && disp < 128
    requires Holds(mem, at, [0xFF, modrm, disp, 0, 0, 0])
    ensures FormOf(Window(mem, at)) == if modrm == 0x25 then JmpCell(disp) else CallCell(disp)
  {
    hide FromBytes, Signed32;
    var w, b := Window(mem, at), [0xFF, modrm, disp, 0, 0, 0];
    WindowStarts(mem, at, b);
    assert w[..6] == b;
    assert w[0] == b[0] && w[1] == b[1] && w[2..6] == b[2..6] == [disp, 0, 0, 0];
    SmallDisp(disp);
  }

  /** An emitted short branch. */
  lemma ShortForm(mem: Memory, at: nat, opcode: Byte, disp: Byte)
    requires (0x70 <= opcode <= 0x7F || opcode == 0xEB) && disp < 128
    requires Holds(mem, at, [opcode, disp])
    ensures FormOf(Window(mem, at)) == if opcode == 0xEB then ShortJmp(disp) else ShortJcc(opcode - 0x70, disp)
  {
    hide FromBytes, Signed32;
    WindowStarts(mem, at, [opcode, disp]);
    assert Window(mem, at)[0] == opcode && Window(mem, at)[1] == disp;
  }

  /** jmp *(rip) over an inline cell. */
  lemma JmpAbsoluteStep(cpu: Cpu, mem: Memory, at: nat, target: nat, core: nat)
    requires target < TWO64 && at + 14 <= TWO64 && Holds(mem, at, JmpAbsolute(target))
    ensures Step(cpu, mem, at, core) == Jump(target, core)
    ensures Reaches(cpu, mem, at, core, target, core, 1)
  {
    hide FromBytes, ToBytes, FormOf, Reaches, Holds;
    HoldsParts(mem, at, [0xFF, 0x25, 0, 0, 0, 0], ToBytes(target, 8));
    CellForm(mem, at, 0x25, 0);
    HoldsBytes(mem, at + 6, ToBytes(target, 8));
    Cell(target);
    ReachesStep(cpu, mem, at, core);
  }

  /** jmp rel8 forward, as emitted to step over a cell. */
  lemma ShortJumpStep(cpu: Cpu, mem: Memory, at: nat, disp: Byte, core: nat)
    requires disp < 128 && at + 2 + disp < TWO64 && Holds(mem, at, [0xEB, disp])
    ensures Reaches(cpu, mem, at, core, at + 2 + disp, core, 1)
  {
    hide Reaches, FormOf;
    ShortForm(mem, at, 0xEB, disp);
    ReachesStep(cpu, mem, at, core);
  }

  lemma JccStep(cpu: Cpu, mem: Memory, at: nat, opcode: Byte, core: nat)
    requires 0x70 <= opcode <= 0x7F && at + 4 < TWO64 && Holds(mem, at, [opcode, 2])
    ensures Reaches(cpu, mem, at, core, if cpu.holds(opcode - 0x70, core) then at + 4 else at + 2, core, 1)
  {
    hide Reaches, FormOf;
    ShortForm(mem, at, opcode, 2);
    ReachesStep(cpu, mem, at, core);
  }

  /** The four-part sequence for a conditional branch. */
  lemma JccSimulates(cpu: Cpu, mem: Memory, r: nat, opcode: Byte, target: nat, core: nat)
    requires 0x70 <= opcode <= 0x7F && target < TWO64 && r + 18 < TWO64
    requires Holds(mem, r, [opcode, 2, 0xEB, 14] + JmpAbsolute(target))
    ensures Reaches(cpu, mem, r, core, if cpu.holds(opcode - 0x70, core) then target else r + 18, core, 2)
  {
    hide Reaches, Step, Holds, JmpAbsolute;
    HoldsParts(mem, r, [opcode, 2, 0xEB, 14], JmpAbsolute(target));
    assert [opcode, 2, 0xEB, 14] == [opcode, 2] + [0xEB, 14];
    HoldsParts(mem, r, [opcode, 2], [0xEB, 14]);
    JccStep(cpu, mem, r, opcode, core);
    if cpu.holds(opcode - 0x70, core) {
      JmpAbsoluteStep(cpu, mem, r + 4, target, core);
      ReachesOn(cpu, mem, r, core, r + 4, core, target, core, 1, 1);
    } else {
      ShortJumpStep(cpu, mem, r + 2, 14, core);
      ReachesOn(cpu, mem, r, core, r + 2, core, r + 18, core, 1, 1);
    }
  }

  /** From one place to the other, whatever the core and without changing it. */
  ghost predicate Comes(cpu: Cpu, mem: Memory, from: nat, to: nat, n: nat) {
    forall c :: Reaches(cpu, mem, from, c, to, c, n)
  }

  lemma ComesNowhere(cpu: Cpu, mem: Memory, at: nat)
    ensures Comes(cpu, mem, at, at, 0)
  {
  }

  /** The sequence for a call: the cell lies behind the jump that comes back over it. */
  lemma CallSimulates(cpu: Cpu, mem: Memory, r: nat, target: nat, core: nat)
    requires target < TWO64 && r + 16 < TWO64
    requires Holds(mem, r, [0xFF, 0x15, 2, 0, 0, 0, 0xEB, 8] + ToBytes(target, 8))
    ensures Step(cpu, mem, r, core) == Call(target, core) && After(cpu, mem, r) == r + 6
    ensures Comes(cpu, mem, r + 6, r + 16, 1)
  {
    hide Reaches, Holds, ToBytes, FromBytes, FormOf;
    var call, skip := [0xFF, 0x15, 2, 0, 0, 0], [0xEB, 8];
    HoldsParts(mem, r, [0xFF, 0x15, 2, 0, 0, 0, 0xEB, 8], ToBytes(target, 8));
    assert [0xFF, 0x15, 2, 0, 0, 0, 0xEB, 8] == call + skip;
    HoldsParts(mem, r, call, skip);
    CellForm(mem, r, 0x15, 2);
    HoldsBytes(mem, r + 8, ToBytes(target, 8));
    Cell(target);
    var from, to := r + 6, r + 16;
    forall c
      ensures Reaches(cpu, mem, from, c, to, c, 1)
    {
      ShortJumpStep(cpu, mem, from, 8, c);
    }
  }

  // ---------------------------------------------------------------- copies

  /** The bytes at r are those of the instruction at ip. */
  ghost predicate CopyOf(cpu: Cpu, mem0: Memory, mem1: Memory, ip: nat, r: nat) {
    Holds(mem1, r, Bytes(mem0, ip, LengthAt(cpu, mem0, ip)))
  }

  /** An ordinary instruction that does the same at every address. */
  ghost predicate Movable(cpu: Cpu, mem0: Memory, ip: nat) {
    && FormOf(Window(mem0, ip)) == Other
    && var bytes := Bytes(mem0, ip, LengthAt(cpu, mem0, ip));
       forall r: nat, core: nat {:trigger cpu.run(bytes, r, core)} :: cpu.run(bytes, r, core) == cpu.run(bytes, ip, core)
  }

  /** A copy begins with the same bytes, so it is the same instruction. */
  lemma CopyStarts(cpu: Cpu, mem0: Memory, mem1: Memory, ip: nat, r: nat)
    requires CopyOf(cpu, mem0, mem1, ip, r) && 1 <= LengthAt(cpu, mem0, ip) <= WINDOW
    ensures Window(mem0, ip)[..LengthAt(cpu, mem0, ip)] <= Window(mem1, r)
    ensures Bytes(mem1, r, LengthAt(cpu, mem0, ip)) == Bytes(mem0, ip, LengthAt(cpu, mem0, ip))
  {
    hide Length;
    var n := LengthAt(cpu, mem0, ip);
    HoldsBytes(mem1, r, Bytes(mem0, ip, n));
    WindowStarts(mem1, r, Bytes(mem0, ip, n));
    assert forall i :: 0 <= i < n ==> Window(mem0, ip)[i] == Bytes(mem0, ip, n)[i];
  }

  lemma CopyOther(cpu: Cpu, mem0: Memory, mem1: Memory, ip: nat, r: nat, core: nat)
    requires Decided(cpu) && FormOf(Window(mem0, ip)) == Other && CopyOf(cpu, mem0, mem1, ip, r)
    ensures FormOf(Window(mem1, r)) == Other && LengthAt(cpu, mem1, r) == LengthAt(cpu, mem0, ip)
    ensures Step(cpu, mem1, r, core) == cpu.run(Bytes(mem0, ip, LengthAt(cpu, mem0, ip)), r, core)
  {
    hide FormOf, Window, Bytes, CopyOf;
    var w := Window(mem0, ip);
    assert 1 <= cpu.length(w) <= WINDOW;
    CopyStarts(cpu, mem0, mem1, ip, r);
    assert FormOf(Window(mem1, r)) == Other;
  }

  /** A copied movable instruction acts as it did. */
  lemma CopySimulates(cpu: Cpu, mem0: Memory, mem1: Memory, ip: nat, r: nat, core: nat)
    requires Decided(cpu) && Movable(cpu, mem0, ip) && CopyOf(cpu, mem0, mem1, ip, r)
    ensures LengthAt(cpu, mem1, r) == LengthAt(cpu, mem0, ip) && Step(cpu, mem1, r, core) == Step(cpu, mem0, ip, core)
  {
    hide FormOf, Window, Bytes, CopyOf, Decided;
    CopyOther(cpu, mem0, mem1, ip, r, core);
  }

  /** Being movable is exactly what a faithful copy of an ordinary instruction needs. */
  lemma MovableExact(cpu: Cpu, mem0: Memory, ip: nat)
    requires Decided(cpu) && FormOf(Window(mem0, ip)) == Other
    ensures Movable(cpu, mem0, ip) <==>
      forall mem1: Memory, r: nat, core: nat {:trigger Step(cpu, mem1, r, core)} ::
        CopyOf(cpu, mem0, mem1, ip, r) ==> Step(cpu, mem1, r, core) == Step(cpu, mem0, ip, core)
  {
    hide FormOf, Window, Decided;
    if Movable(cpu, mem0, ip) {
      forall mem1: Memory, r: nat, core: nat {:trigger Step(cpu, mem1, r, core)} | CopyOf(cpu, mem0, mem1, ip, r)
        ensures Step(cpu, mem1, r, core) == Step(cpu, mem0, ip, core)
      {
        CopySimulates(cpu, mem0, mem1, ip, r, core);
      }
    }
    if forall mem1: Memory, r: nat, core: nat {:trigger Step(cpu, mem1, r, core)} ::
         CopyOf(cpu, mem0, mem1, ip, r) ==> Step(cpu, mem1, r, core) == Step(cpu, mem0, ip, core) {
      var bytes := Bytes(mem0, ip, LengthAt(cpu, mem0, ip));
      forall r: nat, core: nat {:trigger cpu.run(bytes, r, core)}
        ensures cpu.run(bytes, r, core) == cpu.run(bytes, ip, core)
      {
        var mem1: Memory := Placing(bytes, r);
        PlacingHolds(bytes, r);
        CopyOther(cpu, mem0, mem1, ip, r, core);
        assert Step(cpu, mem1, r, core) == Step(cpu, mem0, ip, core);
      }
    }
  }

  /** A memory with the given bytes at r. */
  function Placing(bytes: seq<Byte>, r: nat): Memory {
    (a: nat) => if r <= a < r + |bytes| then bytes[a - r] else 0
  }

  lemma PlacingHolds(bytes: seq<Byte>, r: nat)
    ensures Holds(Placing(bytes, r), r, bytes)
  {
  }

  /** Six-byte forms are decided by their six bytes. */
  lemma SixSame(cpu: Cpu, mem0: Memory, mem1: Memory, ip: nat, r: nat)
    requires var f := FormOf(Window(mem0, ip)); f.NearJcc? || f.JmpCell? || f.CallCell?
    requires CopyOf(cpu, mem0, mem1, ip, r)
    ensures FormOf(Window(mem1, r)) == FormOf(Window(mem0, ip))
  {
    hide FromBytes, Signed32, CopyOf;
    CopyStarts(cpu, mem0, mem1, ip, r);
    var w, v := Window(mem0, ip), Window(mem1, r);
    assert forall i :: 0 <= i < 6 ==> w[i] == w[..6][i] == v[i];
    assert w[2..6] == v[2..6];
  }

  lemma WrapApart(a: nat, b: nat, d: int)
    requires a + d >= 0 && b + d >= 0
    ensures Wrap(a + d) == Wrap(b + d) <==> a % TWO64 == b % TWO64
  {
    var p, q := (a + d) / TWO64, (b + d) / TWO64;
    var s, t := a / TWO64, b / TWO64;
    assert a + d == p * TWO64 + Wrap(a + d) && b + d == q * TWO64 + Wrap(b + d);
    assert a == s * TWO64 + a % TWO64 && b == t * TWO64 + b % TWO64;
  }

  /**
    The relocator copies jcc rel32 (0F 80 to 0F 8F) as it is.  The copy agrees with the
    original exactly when the branch is not taken or nothing has moved.
   */
  lemma NearJccCopyExact(cpu: Cpu, mem0: Memory, mem1: Memory, ip: nat, r: nat, core: nat)
    requires FormOf(Window(mem0, ip)).NearJcc? && CopyOf(cpu, mem0, mem1, ip, r)
    ensures var f := FormOf(Window(mem0, ip));
      && LengthAt(cpu, mem1, r) == LengthAt(cpu, mem0, ip) == 6
      && (Step(cpu, mem1, r, core) == Step(cpu, mem0, ip, core) <==>
            !cpu.holds(f.cc, core) || r % TWO64 == ip % TWO64)
      && (cpu.holds(f.cc, core) ==> Step(cpu, mem1, r, core) == Jump(Wrap(r + 6 + f.rel), core))
  {
    hide FormOf, CopyOf, Wrap;
    SixSame(cpu, mem0, mem1, ip, r);
    WrapSame(r + 6, ip + 6, FormOf(Window(mem0, ip)).rel);
    SameShift(r, ip);
  }

  lemma WrapSame(a: nat, b: nat, d: int)
    ensures Wrap(a + d) == Wrap(b + d) <==> a % TWO64 == b % TWO64
  {
    var k := if d < 0 then -d else 0;
    var up := TWO64 * k;
    ModShift(a + d, k);
    ModShift(b + d, k);
    WrapApart(a, b, d + up);
  }

  lemma ModShift(a: int, k: int)
    ensures Wrap(a + TWO64 * k) == Wrap(a)
  {
    assert a + TWO64 * k == TWO64 * (a / TWO64 + k) + a % TWO64;
  }

  lemma SameShift(a: nat, b: nat)
    ensures (a + 6) % TWO64 == (b + 6) % TWO64 <==> a % TWO64 == b % TWO64
  {
    WrapApart(a, b, 6);
  }

  /** A copied jump or call through a cell agrees exactly when the cells it and the original read are equal. */
  lemma CellCopyExact(cpu: Cpu, mem0: Memory, mem1: Memory, ip: nat, r: nat, core: nat)
    requires FormOf(Window(mem0, ip)).JmpCell? || FormOf(Window(mem0, ip)).CallCell?
    requires CopyOf(cpu, mem0, mem1, ip, r)
    ensures var rel := FormOf(Window(mem0, ip)).rel;
      Step(cpu, mem1, r, core) == Step(cpu, mem0, ip, core) <==>
        Bytes(mem1, Wrap(r + 6 + rel), 8) == Bytes(mem0, Wrap(ip + 6 + rel), 8)
  {
    hide FormOf, CopyOf, Wrap, FromBytes, Bytes;
    var rel := FormOf(Window(mem0, ip)).rel;
    SixSame(cpu, mem0, mem1, ip, r);
    var a, b := Bytes(mem1, Wrap(r + 6 + rel), 8), Bytes(mem0, Wrap(ip + 6 + rel), 8);
    if FromBytes(a) == FromBytes(b) {
      BytesInjective(a, b);
    }
  }

  // ---------------------------------------------------------------- one instruction

  /**
    What the relocator's decoder reports: the length, the byte it calls the primary opcode,
    the immediate and its offset, and whether it saw a RIP-relative operand.
   */
  datatype Insn = Insn(length: nat, opcode: Byte, immediate: int, immediateAt: nat, ripOperand: bool)

  type Decoder = seq<Byte> -> Insn

  predicate IsJcc(insn: Insn) {
    0x70 <= insn.opcode <= 0x7F
  }

  /** The bytes for one instruction that ends at `next`; None where the relocator gives up or rewrites a RIP operand. */
  function Frag(insn: Insn, bytes: seq<Byte>, next: nat): (f: Option<seq<Byte>>)
    ensures f.None? <==>
              && !(0x70 <= insn.opcode <= 0x7F)
              && (insn.ripOperand || 0xE0 <= insn.opcode <= 0xE3 || (0xE8 <= insn.opcode <= 0xE9 && insn.immediateAt != 1))
  {
    if IsJcc(insn) then
      Some([insn.opcode, 2, 0xEB, 14] + JmpAbsolute(Wrap(next + Signed8(insn.immediate))))
    else if insn.ripOperand then None
    else if insn.opcode == 0xEB then Some(JmpAbsolute(Wrap(next + Signed8(insn.immediate))))
    else if insn.opcode == 0xE8 || insn.opcode == 0xE9 then
      if insn.immediateAt != 1 then None
      else if insn.opcode == 0xE8 then
        Some([0xFF, 0x15, 2, 0, 0, 0, 0xEB, 8] + ToBytes(Wrap(next + Signed32(insn.immediate)), 8))
      else Some(JmpAbsolute(Wrap(next + Signed32(insn.immediate))))
    else if 0xE0 <= insn.opcode <= 0xE3 then None
    else Some(bytes)
  }

  function At(dec: Decoder, mem: Memory, ip: nat): Insn {
    dec(Window(mem, ip))
  }

  function Behind(dec: Decoder, mem: Memory, ip: nat): nat {
    ip + At(dec, mem, ip).length
  }

  function FragAt(dec: Decoder, mem0: Memory, ip: nat): Option<seq<Byte>> {
    Frag(At(dec, mem0, ip), Bytes(mem0, ip, At(dec, mem0, ip).length), Behind(dec, mem0, ip))
  }

  /** What the relocator takes the instruction for; only meant for the opcodes it rewrites. */
  function Meaning(cpu: Cpu, insn: Insn, next: nat, core: nat): Next {
    if IsJcc(insn) then
      if cpu.holds(insn.opcode - 0x70, core) then Jump(Wrap(next + Signed8(insn.immediate)), core) else Fall(core)
    else if insn.opcode == 0xEB then Jump(Wrap(next + Signed8(insn.immediate)), core)
    else if insn.opcode == 0xE8 then Call(Wrap(next + Signed32(insn.immediate)), core)
    else Jump(Wrap(next + Signed32(insn.immediate)), core)
  }

  predicate Rewritten(insn: Insn) {
    IsJcc(insn) || insn.opcode == 0xEB || insn.opcode == 0xE8 || insn.opcode == 0xE9
  }

  /**
    The relocator reads the instruction as the processor runs it: the lengths agree, what
    it rewrites means what it takes it for, and what it copies may be moved.
   */
  ghost predicate ReadRight(dec: Decoder, cpu: Cpu, mem0: Memory, ip: nat) {
    var insn := At(dec, mem0, ip);
    && insn.length == LengthAt(cpu, mem0, ip)
    && if Rewritten(insn) then
         forall core {:trigger Step(cpu, mem0, ip, core)} ::
           Step(cpu, mem0, ip, core) == Meaning(cpu, insn, ip + insn.length, core)
       else Movable(cpu, mem0, ip)
  }

  /** A jcc rel32 that is copied, and not taken from this core. */
  predicate NotTaken(dec: Decoder, cpu: Cpu, mem0: Memory, ip: nat, core: nat) {
    var f := FormOf(Window(mem0, ip));
    && f.NearJcc? && !cpu.holds(f.cc, core)
    && At(dec, mem0, ip).length == 6 && FragAt(dec, mem0, ip) == Some(Bytes(mem0, ip, 6))
  }

  /** What the decoder reports for the branches without prefixes. */
  ghost predicate DecodesBranches(dec: Decoder) {
    forall w: seq<Byte> {:trigger dec(w)} :: |w| == WINDOW ==>
      match FormOf(w)
      case ShortJcc(_, rel) => dec(w) == Insn(2, w[0], w[1], 1, false)
      case ShortJmp(rel) => dec(w) == Insn(2, w[0], w[1], 1, false)
      case NearCall(rel) => dec(w) == Insn(5, w[0], FromBytes(w[1..5]), 1, false)
      case NearJmp(rel) => dec(w) == Insn(5, w[0], FromBytes(w[1..5]), 1, false)
      case NearJcc(_, rel) => dec(w) == Insn(6, w[1], FromBytes(w[2..6]), 2, false)
      case _ => true
  }

  /** With such a decoder that is every jcc rel32 whose condition fails. */
  lemma UntakenCopied(dec: Decoder, cpu: Cpu, mem0: Memory, ip: nat, core: nat)
    requires DecodesBranches(dec) && FormOf(Window(mem0, ip)).NearJcc?
    ensures NotTaken(dec, cpu, mem0, ip, core) <==> !cpu.holds(Window(mem0, ip)[1] - 0x80, core)
  {
    hide FromBytes, Signed32;
    assert At(dec, mem0, ip) == dec(Window(mem0, ip));
  }

  /** Branches without prefixes that the relocator rewrites are read right. */
  lemma BranchesReadRight(dec: Decoder, cpu: Cpu, mem0: Memory, ip: nat)
    requires DecodesBranches(dec)
    requires var f := FormOf(Window(mem0, ip)); f.ShortJcc? || f.ShortJmp? || f.NearCall? || f.NearJmp?
    ensures ReadRight(dec, cpu, mem0, ip)
  {
    hide FromBytes, Signed32;
    var w := Window(mem0, ip);
    assert At(dec, mem0, ip) == dec(w);
  }

  /**
    The code at r, `len` bytes long, does what an instruction does: it falls through behind
    itself, jumps to the same place, or makes the same call and comes back behind itself.
   */
  ghost predicate Simulated(cpu: Cpu, mem: Memory, r: nat, len: nat, original: Next, core: nat, n: nat, back: nat) {
    match original
    case Fall(c) => Reaches(cpu, mem, r, core, r + len, c, n)
    case Jump(to, c) => Reaches(cpu, mem, r, core, to, c, n)
    case Call(to, c) =>
      Step(cpu, mem, r, core) == Call(to, c) && Comes(cpu, mem, After(cpu, mem, r), r + len, back)
  }

  /** What is emitted for an instruction that is read right, or for an untaken jcc rel32, does what the instruction did. */
  lemma FragSimulates(dec: Decoder, cpu: Cpu, mem0: Memory, mem1: Memory, ip: nat, r: nat, core: nat)
      returns (n: nat, back: nat)
    requires Decided(cpu) && FragAt(dec, mem0, ip).Some?
    requires ReadRight(dec, cpu, mem0, ip) || NotTaken(dec, cpu, mem0, ip, core)
    requires Holds(mem1, r, FragAt(dec, mem0, ip).value) && r + |FragAt(dec, mem0, ip).value| < TWO64
    ensures Simulated(cpu, mem1, r, |FragAt(dec, mem0, ip).value|, Step(cpu, mem0, ip, core), core, n, back)
  {
    hide Decided, Reaches, Holds, JmpAbsolute, ToBytes, Signed8, Signed32, At, Step, Bytes, LengthAt, Movable;
    var insn := At(dec, mem0, ip);
    var next := ip + insn.length;
    if !ReadRight(dec, cpu, mem0, ip) {
      SkippedSimulates(dec, cpu, mem0, mem1, ip, r, core);
      n, back := 1, 0;
    } else if IsJcc(insn) {
      JccSimulates(cpu, mem1, r, insn.opcode, Wrap(next + Signed8(insn.immediate)), core);
      n, back := 2, 0;
    } else if insn.opcode == 0xEB {
      JmpAbsoluteStep(cpu, mem1, r, Wrap(next + Signed8(insn.immediate)), core);
      n, back := 1, 0;
    } else if insn.opcode == 0xE9 {
      JmpAbsoluteStep(cpu, mem1, r, Wrap(next + Signed32(insn.immediate)), core);
      n, back := 1, 0;
    } else if insn.opcode == 0xE8 {
      CallSimulates(cpu, mem1, r, Wrap(next + Signed32(insn.immediate)), core);
      n, back := 1, 1;
    } else {
      CopySimulates(cpu, mem0, mem1, ip, r, core);
      ReachesStep(cpu, mem1, r, core);
      ComesNowhere(cpu, mem1, r + insn.length);
      n, back := 1, 0;
    }
  }

  lemma SkippedSimulates(dec: Decoder, cpu: Cpu, mem0: Memory, mem1: Memory, ip: nat, r: nat, core: nat)
    requires NotTaken(dec, cpu, mem0, ip, core) && Holds(mem1, r, FragAt(dec, mem0, ip).value)
    ensures Step(cpu, mem0, ip, core) == Fall(core) && Reaches(cpu, mem1, r, core, r + 6, core, 1)
  {
    hide FormOf, Holds, Bytes, Reaches, FragAt;
    NearJccCopyExact(cpu, mem0, mem1, ip, r, core);
    ReachesStep(cpu, mem1, r, core);
  }

  // ---------------------------------------------------------------- a block of instructions

  /** What is assumed of the decoder: every instruction has between 1 and 15 bytes. */
  ghost predicate Progress(dec: Decoder) {
    forall w: seq<Byte> {:trigger dec(w)} :: |w| == WINDOW ==> 1 <= dec(w).length <= WINDOW
  }

  lemma LengthPositive(dec: Decoder, mem: Memory, ip: nat)
    requires Progress(dec)
    ensures 1 <= At(dec, mem, ip).length <= WINDOW
  {
  }

  /** Where relocation stops: the first instruction boundary at or past `stop`. */
  function Finish(dec: Decoder, mem0: Memory, ip: nat, stop: nat): (end: nat)
    ensures ip <= end && stop <= end
    decreases stop - ip
  {
    if ip >= stop then ip
    else if At(dec, mem0, ip).length == 0 then stop
    else Finish(dec, mem0, Behind(dec, mem0, ip), stop)
  }

  /** The code emitted for the instructions from ip up to `stop`; None if one of them is not relocated. */
  function Relocated(dec: Decoder, mem0: Memory, ip: nat, stop: nat): Option<seq<Byte>>
    decreases stop - ip
  {
    if ip >= stop then Some([])
    else if At(dec, mem0, ip).length == 0 then None
    else
      match FragAt(dec, mem0, ip)
      case None => None
      case Some(f) =>
        match Relocated(dec, mem0, Behind(dec, mem0, ip), stop)
        case None => None
        case Some(rest) => Some(f + rest)
  }

  /** Reading on from ip, the decoder comes to an instruction at `a` before `stop`. */
  predicate OnPath(dec: Decoder, mem0: Memory, ip: nat, stop: nat, a: nat)
    decreases stop - ip
  {
    ip < stop && (a == ip || (At(dec, mem0, ip).length > 0 && OnPath(dec, mem0, Behind(dec, mem0, ip), stop, a)))
  }

  /** The instructions that stop the relocator: RIP operands, LOOP and JCXZ, and calls and jumps with a prefix. */
  predicate NotRelocated(insn: Insn) {
    && !(0x70 <= insn.opcode <= 0x7F)
    && (insn.ripOperand || 0xE0 <= insn.opcode <= 0xE3 || (0xE8 <= insn.opcode <= 0xE9 && insn.immediateAt != 1))
  }

  ghost predicate Stops(dec: Decoder, mem0: Memory, ip: nat, stop: nat) {
    exists a: nat {:trigger OnPath(dec, mem0, ip, stop, a)} :: OnPath(dec, mem0, ip, stop, a) && NotRelocated(At(dec, mem0, a))
  }

  /** A block is relocated exactly when no instruction in it stops the relocator. */
  lemma {:induction false} RelocatedExact(dec: Decoder, mem0: Memory, ip: nat, stop: nat)
    requires Progress(dec)
    ensures Relocated(dec, mem0, ip, stop).None? <==> Stops(dec, mem0, ip, stop)
    decreases stop - ip
  {
    hide Progress, At;
    if ip >= stop {
    } else {
      LengthPositive(dec, mem0, ip);
      var next := Behind(dec, mem0, ip);
      RelocatedExact(dec, mem0, next, stop);
      assert FragAt(dec, mem0, ip).None? <==> NotRelocated(At(dec, mem0, ip));
      if Stops(dec, mem0, ip, stop) {
        var a: nat :| OnPath(dec, mem0, ip, stop, a) && NotRelocated(At(dec, mem0, a));
        assert a == ip || OnPath(dec, mem0, next, stop, a);
      } else {
        assert OnPath(dec, mem0, ip, stop, ip);
        if Stops(dec, mem0, next, stop) {
          var a: nat :| OnPath(dec, mem0, next, stop, a) && NotRelocated(At(dec, mem0, a));
          assert OnPath(dec, mem0, ip, stop, a);
        }
      }
    }
  }

  /** Branches without prefixes are always relocated. */
  lemma BranchesRelocated(dec: Decoder, mem0: Memory, ip: nat)
    requires DecodesBranches(dec)
    requires var f := FormOf(Window(mem0, ip)); f.ShortJcc? || f.ShortJmp? || f.NearCall? || f.NearJmp? || f.NearJcc?
    ensures !NotRelocated(At(dec, mem0, ip)) && FragAt(dec, mem0, ip).Some?
  {
    hide FromBytes, Signed32;
    assert At(dec, mem0, ip) == dec(Window(mem0, ip));
  }

  /** Every instruction that the original run executes in the block is read right, or is an untaken jcc rel32. */
  ghost predicate RunRight(dec: Decoder, cpu: Cpu, mem0: Memory, ip: nat, stop: nat, core: nat)
    decreases stop - ip
  {
    ip < stop && At(dec, mem0, ip).length > 0 ==>
      && (ReadRight(dec, cpu, mem0, ip) || NotTaken(dec, cpu, mem0, ip, core))
      && match Step(cpu, mem0, ip, core)
         case Fall(c) => RunRight(dec, cpu, mem0, Behind(dec, mem0, ip), stop, c)
         case _ => true
  }

  /** Every instruction of the block is read right. */
  ghost predicate AllReadRight(dec: Decoder, cpu: Cpu, mem0: Memory, ip: nat, stop: nat)
    decreases stop - ip
  {
    ip < stop && At(dec, mem0, ip).length > 0 ==>
      ReadRight(dec, cpu, mem0, ip) && AllReadRight(dec, cpu, mem0, Behind(dec, mem0, ip), stop)
  }

  /** Then every run is right. */
  lemma {:induction false} AllRunsRight(dec: Decoder, cpu: Cpu, mem0: Memory, ip: nat, stop: nat, core: nat)
    requires AllReadRight(dec, cpu, mem0, ip, stop)
    ensures RunRight(dec, cpu, mem0, ip, stop, core)
    decreases stop - ip
  {
    hide ReadRight, Step, At;
    if ip >= stop || At(dec, mem0, ip).length == 0 {
    } else {
      var s := Step(cpu, mem0, ip, core);
      AllRunsRight(dec, cpu, mem0, Behind(dec, mem0, ip), stop, s.core);
    }
  }

  /** How the original code leaves the block: off its end, by a jump, or by a call from `at`. */
  datatype Leaving = OffEnd(at: nat, core: nat) | ByJump(to: nat, core: nat) | ByCall(at: nat, to: nat, core: nat)

  /** The processor running the original instructions one after the other. */
  function Head(cpu: Cpu, mem0: Memory, ip: nat, stop: nat, core: nat): Leaving
    decreases stop - ip
  {
    if ip >= stop || LengthAt(cpu, mem0, ip) == 0 then OffEnd(ip, core)
    else
      match Step(cpu, mem0, ip, core)
      case Fall(c) => Head(cpu, mem0, After(cpu, mem0, ip), stop, c)
      case Jump(to, c) => ByJump(to, c)
      case Call(to, c) => ByCall(ip, to, c)
  }

  /** The relocated code from ip on lies at r, followed by the jump back. */
  ghost predicate Placed(dec: Decoder, mem0: Memory, mem1: Memory, ip: nat, stop: nat, r: nat) {
    && Relocated(dec, mem0, ip, stop).Some?
    && Holds(mem1, r, Relocated(dec, mem0, ip, stop).value + JmpAbsolute(Finish(dec, mem0, ip, stop)))
    && r + |Relocated(dec, mem0, ip, stop).value| + 14 < TWO64
    && Finish(dec, mem0, ip, stop) < TWO64
  }

  lemma PlacedStep(dec: Decoder, mem0: Memory, mem1: Memory, ip: nat, stop: nat, r: nat)
    requires ip < stop && Placed(dec, mem0, mem1, ip, stop, r)
    ensures FragAt(dec, mem0, ip).Some? && Holds(mem1, r, FragAt(dec, mem0, ip).value)
    ensures r + |FragAt(dec, mem0, ip).value| < TWO64
    ensures Placed(dec, mem0, mem1, Behind(dec, mem0, ip), stop, r + |FragAt(dec, mem0, ip).value|)
  {
    hide Holds, JmpAbsolute, FragAt, At;
    var f, next := FragAt(dec, mem0, ip).value, Behind(dec, mem0, ip);
    var rest, tail := Relocated(dec, mem0, next, stop).value, JmpAbsolute(Finish(dec, mem0, next, stop));
    assert f + rest + tail == f + (rest + tail);
    HoldsParts(mem1, r, f, rest + tail);
  }

  /**
    The relocated block does what the original block does.  Off the end it lands on the
    first instruction that was not relocated; a jump lands where the original jumps; a
    call calls the same function and comes back to the relocated copy of what follows.
   */
  ghost predicate BlockAgrees(dec: Decoder, cpu: Cpu, mem0: Memory, mem1: Memory, ip: nat, stop: nat, r: nat, core: nat,
                              n: nat, back: nat, at: nat, cont: nat) {
    match Head(cpu, mem0, ip, stop, core)
    case OffEnd(end, c) => end == Finish(dec, mem0, ip, stop) && Reaches(cpu, mem1, r, core, end, c, n)
    case ByJump(to, c) => Reaches(cpu, mem1, r, core, to, c, n)
    case ByCall(from, to, c) => CallAgrees(dec, cpu, mem0, mem1, from, to, c, stop, r, core, n, back, at, cont)
  }

  ghost predicate CallAgrees(dec: Decoder, cpu: Cpu, mem0: Memory, mem1: Memory, from: nat, to: nat, c: nat, stop: nat,
                             r: nat, core: nat, n: nat, back: nat, at: nat, cont: nat) {
    exists before :: Reaches(cpu, mem1, r, core, at, before, n)
      && Step(cpu, mem1, at, before) == Call(to, c)
      && Comes(cpu, mem1, After(cpu, mem1, at), cont, back)
      && Placed(dec, mem0, mem1, After(cpu, mem0, from), stop, cont)
  }

  /** Agreement of the rest of the block, after a fragment that fell through. */
  lemma AgreesOn(dec: Decoder, cpu: Cpu, mem0: Memory, mem1: Memory, ip: nat, stop: nat, r: nat, core: nat, r': nat, c: nat,
                 n: nat, m: nat, back: nat, at: nat, cont: nat)
    requires ip < stop && LengthAt(cpu, mem0, ip) > 0 && Step(cpu, mem0, ip, core) == Fall(c)
    requires At(dec, mem0, ip).length == LengthAt(cpu, mem0, ip)
    requires Reaches(cpu, mem1, r, core, r', c, n)
    requires BlockAgrees(dec, cpu, mem0, mem1, Behind(dec, mem0, ip), stop, r', c, m, back, at, cont)
    ensures BlockAgrees(dec, cpu, mem0, mem1, ip, stop, r, core, n + m, back, at, cont)
  {
    hide Reaches, Step, Comes, Placed, LengthAt, At;
    var leaving := Head(cpu, mem0, ip, stop, core);
    assert leaving == Head(cpu, mem0, After(cpu, mem0, ip), stop, c);
    match leaving
    case OffEnd(end, c') =>
      ReachesOn(cpu, mem1, r, core, r', c, end, c', n, m);
    case ByJump(to, c') =>
      ReachesOn(cpu, mem1, r, core, r', c, to, c', n, m);
    case ByCall(from, to, c') =>
      var before :| Reaches(cpu, mem1, r', c, at, before, m)
        && Step(cpu, mem1, at, before) == Call(to, c')
        && Comes(cpu, mem1, After(cpu, mem1, at), cont, back)
        && Placed(dec, mem0, mem1, After(cpu, mem0, from), stop, cont);
      ReachesOn(cpu, mem1, r, core, r', c, at, before, n, m);
  }

  lemma SameLength(dec: Decoder, cpu: Cpu, mem0: Memory, ip: nat, core: nat)
    requires ReadRight(dec, cpu, mem0, ip) || NotTaken(dec, cpu, mem0, ip, core)
    ensures At(dec, mem0, ip).length == LengthAt(cpu, mem0, ip)
  {
  }

  lemma {:induction false} BlockSimulates(dec: Decoder, cpu: Cpu, mem0: Memory, mem1: Memory, ip: nat, stop: nat, r: nat, core: nat)
      returns (n: nat, back: nat, at: nat, cont: nat)
    requires Progress(dec) && Decided(cpu) && RunRight(dec, cpu, mem0, ip, stop, core)
    requires Placed(dec, mem0, mem1, ip, stop, r)
    ensures BlockAgrees(dec, cpu, mem0, mem1, ip, stop, r, core, n, back, at, cont)
    decreases stop - ip
  {
    hide Progress, Decided, Reaches, Holds, JmpAbsolute, FragAt, Step, ReadRight, NotTaken, Comes, LengthAt, At;
    n, back, at, cont := 1, 0, r, 0;
    if ip >= stop {
      assert [] + JmpAbsolute(ip) == JmpAbsolute(ip);
      JmpAbsoluteStep(cpu, mem1, r, ip, core);
    } else {
      LengthPositive(dec, mem0, ip);
      SameLength(dec, cpu, mem0, ip, core);
      PlacedStep(dec, mem0, mem1, ip, stop, r);
      var f := FragAt(dec, mem0, ip).value;
      n, back := FragSimulates(dec, cpu, mem0, mem1, ip, r, core);
      match Step(cpu, mem0, ip, core)
      case Jump(to, c) =>
      case Call(to, c) =>
        cont := r + |f|;
        ReachesHere(cpu, mem1, r, core);
        n := 0;
      case Fall(c) =>
        var m;
        m, back, at, cont := BlockSimulates(dec, cpu, mem0, mem1, Behind(dec, mem0, ip), stop, r + |f|, c);
        AgreesOn(dec, cpu, mem0, mem1, ip, stop, r, core, r + |f|, c, n, m, back, at, cont);
        n := n + m;
    }
  }

  /**
    A head that begins with a taken jcc rel32: the original jumps to its target, the block
    as far beside it as it was moved.
   */
  lemma NearJccMisses(dec: Decoder, cpu: Cpu, mem0: Memory, mem1: Memory, ip: nat, stop: nat, r: nat, core: nat)
    requires DecodesBranches(dec) && FormOf(Window(mem0, ip)).NearJcc? && ip < stop && ip < TWO64
    requires Placed(dec, mem0, mem1, ip, stop, r) && r != ip && cpu.holds(FormOf(Window(mem0, ip)).cc, core)
    ensures var to := Wrap(ip + 6 + FormOf(Window(mem0, ip)).rel);
      && Head(cpu, mem0, ip, stop, core) == ByJump(to, core)
      && Step(cpu, mem1, r, core) == Jump(Wrap(to + r - ip), core)
      && Wrap(to + r - ip) != to
  {
    hide FormOf, FragAt, At, Bytes, Holds, JmpAbsolute;
    var f := FormOf(Window(mem0, ip));
    NearJccRead(dec, mem0, ip);
    PlacedStep(dec, mem0, mem1, ip, stop, r);
    assert LengthAt(cpu, mem0, ip) == 6;
    NearJccCopyExact(cpu, mem0, mem1, ip, r, core);
    MovedBy(ip + 6 + f.rel, r - ip);
  }

  lemma MovedBy(a: int, d: int)
    ensures Wrap(Wrap(a) + d) == Wrap(a + d)
  {
    assert a + d == (Wrap(a) + d) + TWO64 * (a / TWO64);
    ModShift(Wrap(a) + d, a / TWO64);
  }

  const JE: seq<Byte> := [0x0F, 0x84, 0x10, 0, 0, 0]

  lemma JeForm(at: nat)
    ensures var mem := Placing(JE, at);
      FormOf(Window(mem, at)) == NearJcc(4, 0x10) && Bytes(mem, at, 6) == JE
  {
    hide Holds, Placing, Window, Bytes, FormOf;
    var mem := Placing(JE, at);
    PlacingHolds(JE, at);
    WindowStarts(mem, at, JE);
    JeWindow(Window(mem, at));
    HoldsBytes(mem, at, JE);
  }

  lemma JeWindow(w: seq<Byte>)
    requires |w| == WINDOW && JE <= w
    ensures FormOf(w) == NearJcc(4, 0x10)
  {
    hide Signed32, FromBytes;
    assert w[0] == JE[0] && w[1] == JE[1] && w[2..6] == JE[2..6] == [0x10, 0, 0, 0];
    SmallDisp(0x10);
  }

  /** The six bytes of `je +0x10` at 0x1000, relocated to 0x2000: the original goes to 0x1016, the copy to 0x2016. */
  lemma NearJccMissesHere(dec: Decoder, cpu: Cpu, core: nat)
    requires DecodesBranches(dec) && cpu.holds(4, core)
    ensures var mem0 := Placing(JE, 0x1000);
      && Relocated(dec, mem0, 0x1000, 0x1006) == Some(JE)
      && Head(cpu, mem0, 0x1000, 0x1006, core) == ByJump(0x1016, core)
      && Step(cpu, Placing(JE + JmpAbsolute(0x1006), 0x2000), 0x2000, core) == Jump(0x2016, core)
  {
    hide ToBytes, Holds, FormOf, Window, Bytes, FromBytes;
    var mem0 := Placing(JE, 0x1000);
    JeForm(0x1000);
    assert At(dec, mem0, 0x1000) == dec(Window(mem0, 0x1000));
    NearJccRead(dec, mem0, 0x1000);
    assert Relocated(dec, mem0, 0x1006, 0x1006) == Some([]);
    assert JE + [] == JE;
    PlacingHolds(JE + JmpAbsolute(0x1006), 0x2000);
    NearJccMisses(dec, cpu, mem0, Placing(JE + JmpAbsolute(0x1006), 0x2000), 0x1000, 0x1006, 0x2000, core);
  }

  /** The relocator takes a jcc rel32 for an ordinary instruction. */
  lemma NearJccRead(dec: Decoder, mem0: Memory, ip: nat)
    requires DecodesBranches(dec) && FormOf(Window(mem0, ip)).NearJcc?
    ensures At(dec, mem0, ip).length == 6 && FragAt(dec, mem0, ip) == Some(Bytes(mem0, ip, 6))
  {
    hide FromBytes, Signed32;
    var w := Window(mem0, ip);
    assert At(dec, mem0, ip) == dec(w);
  }

  /**
    What the decoder makes of a jump or call through a cell: FF is an instruction of one
    byte, because its group entry has no operands, and the ModRM byte behind it, 25 or 15,
    an arithmetic instruction with a 32-bit immediate.
   */
  ghost predicate DecodesCells(dec: Decoder) {
    forall w: seq<Byte> {:trigger dec(w)} :: |w| == WINDOW ==>
      && (w[0] == 0xFF ==> dec(w).length == 1 && dec(w).opcode == 0xFF && !dec(w).ripOperand)
      && (w[0] == 0x25 || w[0] == 0x15 ==> dec(w).length == 5 && dec(w).opcode == w[0] && !dec(w).ripOperand)
  }

  predicate IsCell(f: Form) {
    f.JmpCell? || f.CallCell?
  }

  /** The two instructions that the decoder sees are copied as they are. */
  lemma CellRead(dec: Decoder, mem0: Memory, ip: nat)
    requires DecodesCells(dec) && IsCell(FormOf(Window(mem0, ip)))
    ensures At(dec, mem0, ip).length == 1 && FragAt(dec, mem0, ip) == Some(Bytes(mem0, ip, 1))
    ensures At(dec, mem0, ip + 1).length == 5 && FragAt(dec, mem0, ip + 1) == Some(Bytes(mem0, ip + 1, 5))
  {
    hide FromBytes, Signed32;
    var w, v := Window(mem0, ip), Window(mem0, ip + 1);
    assert w[0] == 0xFF && v[0] == mem0(ip + 1) == w[1];
    assert At(dec, mem0, ip) == dec(w) && At(dec, mem0, ip + 1) == dec(v);
  }

  lemma SixBytes(mem0: Memory, mem1: Memory, ip: nat, r: nat)
    requires Holds(mem1, r, Bytes(mem0, ip, 1)) && Holds(mem1, r + 1, Bytes(mem0, ip + 1, 5))
    ensures Holds(mem1, r, Bytes(mem0, ip, 6))
  {
    HoldsParts(mem1, r, Bytes(mem0, ip, 1), Bytes(mem0, ip + 1, 5));
    assert Bytes(mem0, ip, 1) + Bytes(mem0, ip + 1, 5) == Bytes(mem0, ip, 6);
  }

  /**
    A head that begins with a jump or call through a RIP-relative cell.  The relocator
    emits its six bytes again, and they do what the original does exactly when the two
    cells hold the same eight bytes.
   */
  lemma CellHeadExact(dec: Decoder, cpu: Cpu, mem0: Memory, mem1: Memory, ip: nat, stop: nat, r: nat, core: nat)
    requires DecodesCells(dec) && IsCell(FormOf(Window(mem0, ip))) && ip + 1 < stop && Placed(dec, mem0, mem1, ip, stop, r)
    ensures CopyOf(cpu, mem0, mem1, ip, r)
    ensures var rel, s := FormOf(Window(mem0, ip)).rel, Step(cpu, mem0, ip, core);
      && Head(cpu, mem0, ip, stop, core) == (if s.Jump? then ByJump(s.to, core) else ByCall(ip, s.to, core))
      && (Step(cpu, mem1, r, core) == s <==> Bytes(mem1, Wrap(r + 6 + rel), 8) == Bytes(mem0, Wrap(ip + 6 + rel), 8))
  {
    hide FormOf, FragAt, At, Bytes, Holds, JmpAbsolute, FromBytes;
    CellRead(dec, mem0, ip);
    PlacedStep(dec, mem0, mem1, ip, stop, r);
    PlacedStep(dec, mem0, mem1, ip + 1, stop, r + 1);
    SixBytes(mem0, mem1, ip, r);
    CellCopyExact(cpu, mem0, mem1, ip, r, core);
  }

  /** A jump (25) or call (15) through the cell right behind it, which holds 0x5000. */
  function CellHead(modrm: Byte): seq<Byte> {
    [0xFF, modrm, 0, 0, 0, 0] + ToBytes(0x5000, 8)
  }

  /** What the relocator makes of it: the six bytes, and the jump back. */
  function CellCopied(modrm: Byte): seq<Byte> {
    [0xFF, modrm, 0, 0, 0, 0] + JmpAbsolute(0x1006)
  }

  /** The copy reads the first eight bytes of the jump back. */
  lemma CopiedCell(mem: Memory, at: nat)
    requires Holds(mem, at, JmpAbsolute(0x1006))
    ensures CellAt(mem, at) == 0x1006_0000_0000_25FF
  {
    hide ToBytes, FromBytes, Holds, Bytes;
    var j: seq<Byte> := [0xFF, 0x25, 0, 0, 0, 0, 0x06, 0x10];
    LowBytes();
    assert JmpAbsolute(0x1006) == j + JmpAbsolute(0x1006)[8..];
    HoldsParts(mem, at, j, JmpAbsolute(0x1006)[8..]);
    HoldsBytes(mem, at, j);
    JumpNumber(j);
  }

  lemma LowBytes()
    ensures ToBytes(0x1006, 8)[0] == 0x06 && ToBytes(0x1006, 8)[1] == 0x10
  {
    assert ToBytes(0x1006, 8)[1] == ToBytes(0x10, 7)[0];
  }

  lemma JumpNumber(j: seq<Byte>)
    requires j == [0xFF, 0x25, 0, 0, 0, 0, 0x06, 0x10]
    ensures FromBytes(j) == 0x1006_0000_0000_25FF
  {
    var upper: seq<Byte> := [0, 0, 0x06, 0x10];
    assert upper[1..] == [0, 0x06, 0x10] && [0, 0x06, 0x10][1..] == [0x06, 0x10];
    assert [0x06, 0x10][1..] == [0x10] && [0x10][1..] == [];
    assert FromBytes(upper) == 0x1006_0000;
    var t2, t3: seq<Byte> := j[2..], j[3..];
    assert t3[1..] == upper && FromBytes(t3) == 0x10_0600_0000;
    assert t2[1..] == t3 && FromBytes(t2) == 0x1006_0000_0000;
    assert j[1..][1..] == t2 && FromBytes(j[1..]) == 0x10_0600_0000_0025;
  }

  /**
    The head at 0x1000 relocated to 0x2000: the original goes to 0x5000, the copy to the
    bytes of the jump that follows it.
   */
  lemma CellMissesHere(dec: Decoder, cpu: Cpu, core: nat, modrm: Byte)
    requires DecodesCells(dec) && (modrm == 0x25 || modrm == 0x15)
    ensures var mem0, mem1 := Placing(CellHead(modrm), 0x1000), Placing(CellCopied(modrm), 0x2000);
      && Relocated(dec, mem0, 0x1000, 0x1006) == Some([0xFF, modrm, 0, 0, 0, 0])
      && Placed(dec, mem0, mem1, 0x1000, 0x1006, 0x2000)
      && Step(cpu, mem0, 0x1000, core) == (if modrm == 0x25 then Jump(0x5000, core) else Call(0x5000, core))
      && Step(cpu, mem1, 0x2000, core) ==
           (if modrm == 0x25 then Jump(0x1006_0000_0000_25FF, core) else Call(0x1006_0000_0000_25FF, core))
  {
    hide ToBytes, Holds, FormOf, Bytes, FromBytes, JmpAbsolute, FragAt, At, Placing;
    var mem0, mem1 := Placing(CellHead(modrm), 0x1000), Placing(CellCopied(modrm), 0x2000);
    var six: seq<Byte> := [0xFF, modrm, 0, 0, 0, 0];
    PlacingHolds(CellHead(modrm), 0x1000);
    PlacingHolds(CellCopied(modrm), 0x2000);
    HoldsParts(mem0, 0x1000, six, ToBytes(0x5000, 8));
    HoldsParts(mem1, 0x2000, six, JmpAbsolute(0x1006));
    CellForm(mem0, 0x1000, modrm, 0);
    CellForm(mem1, 0x2000, modrm, 0);
    HoldsBytes(mem0, 0x1006, ToBytes(0x5000, 8));
    Cell(0x5000);
    CopiedCell(mem1, 0x2006);
    SixEmitted(dec, mem0, 0x1000, six);
  }

  lemma SixEmitted(dec: Decoder, mem0: Memory, ip: nat, six: seq<Byte>)
    requires DecodesCells(dec) && IsCell(FormOf(Window(mem0, ip))) && |six| == 6 && Holds(mem0, ip, six)
    ensures Relocated(dec, mem0, ip, ip + 6) == Some(six) && Finish(dec, mem0, ip, ip + 6) == ip + 6
  {
    hide FormOf, FragAt, At, Bytes, Holds;
    CellRead(dec, mem0, ip);
    HoldsBytes(mem0, ip, six);
    BytesSplit(mem0, ip);
    var one, five := Bytes(mem0, ip, 1), Bytes(mem0, ip + 1, 5);
    assert five + [] == five;
    assert Relocated(dec, mem0, ip + 6, ip + 6) == Some([]);
    assert Relocated(dec, mem0, ip + 1, ip + 6) == Some(five);
    assert Finish(dec, mem0, ip + 6, ip + 6) == ip + 6;
    assert Finish(dec, mem0, ip + 1, ip + 6) == ip + 6;
  }

  lemma BytesSplit(mem: Memory, ip: nat)
    ensures Bytes(mem, ip, 1) + Bytes(mem, ip + 1, 5) == Bytes(mem, ip, 6)
  {
  }

  // ---------------------------------------------------------------- the assumptions can be met

  /** A decoder that knows nothing but the branches and what it takes for the cell forms. */
  function SmallDecode(w: seq<Byte>): Insn {
    if |w| != WINDOW then Insn(1, 0x90, 0, 0, false)
    else
      match FormOf(w)
      case ShortJcc(_, _) => Insn(2, w[0], w[1], 1, false)
      case ShortJmp(_) => Insn(2, w[0], w[1], 1, false)
      case NearCall(_) => Insn(5, w[0], FromBytes(w[1..5]), 1, false)
      case NearJmp(_) => Insn(5, w[0], FromBytes(w[1..5]), 1, false)
      case NearJcc(_, _) => Insn(6, w[1], FromBytes(w[2..6]), 2, false)
      case _ =>
        if w[0] == 0x25 || w[0] == 0x15 then Insn(5, w[0], FromBytes(w[1..5]), 1, false)
        else Insn(1, if w[0] == 0xFF then 0xFF else 0x90, 0, 0, false)
  }

  /** A processor whose other instructions have one byte, or two behind 0F and FF. */
  function SmallLength(w: seq<Byte>): nat {
    if |w| == WINDOW && (w[0] == 0x0F || w[0] == 0xFF) then 2 else 1
  }

  /** What is assumed of decoder and processor can be met. */
  lemma AssumptionsMet(run: (seq<Byte>, nat, nat) -> Next, holds: (nat, nat) -> bool)
    ensures Progress(SmallDecode) && DecodesBranches(SmallDecode) && DecodesCells(SmallDecode) && Decided(Cpu(SmallLength, run, holds))
  {
    hide FromBytes, Signed8, Signed32;
    forall w: seq<Byte>, v: seq<Byte> {:trigger FormOf(w), FormOf(v)} |
      |w| == |v| == WINDOW && FormOf(w) == Other && w[..SmallLength(w)] <= v
      ensures FormOf(v) == Other && SmallLength(v) == SmallLength(w)
    {
      var n := SmallLength(w);
      assert forall i :: 0 <= i < n ==> w[i] == w[..n][i] == v[i];
    }
  }

  // ---------------------------------------------------------------- the relocator

  /** A second pass over the length the first pass settled on does the same. */
  lemma {:induction false} FinishFixed(dec: Decoder, mem0: Memory, ip: nat, stop: nat)
    requires Progress(dec)
    ensures var end := Finish(dec, mem0, ip, stop);
      Finish(dec, mem0, ip, end) == end && Relocated(dec, mem0, ip, end) == Relocated(dec, mem0, ip, stop)
    decreases stop - ip
  {
    hide FragAt, Progress;
    LengthPositive(dec, mem0, ip);
    if ip >= stop {
    } else {
      FinishFixed(dec, mem0, Behind(dec, mem0, ip), stop);
    }
  }

  /** Relocation overshoots by less than an instruction; a byte of code grows to at most 18 bytes. */
  lemma {:induction false} GrowthBound(dec: Decoder, mem0: Memory, ip: nat, stop: nat)
    requires Progress(dec) && ip <= stop
    ensures Finish(dec, mem0, ip, stop) < stop + WINDOW
    ensures Relocated(dec, mem0, ip, stop).Some? ==>
      |Relocated(dec, mem0, ip, stop).value| <= 18 * (Finish(dec, mem0, ip, stop) - ip)
    decreases stop - ip
  {
    hide Progress, FragAt, At;
    if ip >= stop {
    } else {
      LengthPositive(dec, mem0, ip);
      FragGrowth(dec, mem0, ip);
      var next := Behind(dec, mem0, ip);
      if next <= stop {
        GrowthBound(dec, mem0, next, stop);
      }
    }
  }

  lemma FragGrowth(dec: Decoder, mem0: Memory, ip: nat)
    requires Progress(dec)
    ensures FragAt(dec, mem0, ip).Some? ==> |FragAt(dec, mem0, ip).value| <= 18 * At(dec, mem0, ip).length
  {
    LengthPositive(dec, mem0, ip);
  }

  datatype FixedResult =
    | Fixed(code: seq<Byte>, originLen: nat)
    | TooSmall(newOriginLen: nat)
    | GaveUp

  /** The code the relocator emits for a block, with its jump back. */
  function Emitted(dec: Decoder, mem0: Memory, origin: nat, size: nat, branch: bool): Option<seq<Byte>> {
    match Relocated(dec, mem0, origin, origin + size)
    case None => None
    case Some(code) => Some(code + if branch then JmpAbsolute(Finish(dec, mem0, origin, origin + size)) else [])
  }

  function Prepend(code: seq<Byte>, rest: Option<seq<Byte>>): Option<seq<Byte>> {
    match rest
    case None => None
    case Some(s) => Some(code + s)
  }

  lemma PrependStep(dec: Decoder, mem0: Memory, ip: nat, stop: nat, code: seq<Byte>)
    requires ip < stop && At(dec, mem0, ip).length > 0
    ensures Finish(dec, mem0, ip, stop) == Finish(dec, mem0, Behind(dec, mem0, ip), stop)
    ensures Prepend(code, Relocated(dec, mem0, ip, stop))
      == if FragAt(dec, mem0, ip).None? then None
         else Prepend(code + FragAt(dec, mem0, ip).value, Relocated(dec, mem0, Behind(dec, mem0, ip), stop))
  {
    hide FragAt, At;
    var f, rest := FragAt(dec, mem0, ip), Relocated(dec, mem0, Behind(dec, mem0, ip), stop);
    if f.Some? && rest.Some? {
      assert code + (f.value + rest.value) == code + f.value + rest.value;
    }
  }

  /** One pass into a block that is already allocated. */
  method RelocateFixed(dec: Decoder, mem0: Memory, origin: nat, size: nat, relocated: M.MemBlock, branch: bool)
      returns (r: FixedResult)
    requires Progress(dec)
    ensures r.GaveUp? <==> Stops(dec, mem0, origin, origin + size)
    ensures var code, end := Emitted(dec, mem0, origin, size, branch), Finish(dec, mem0, origin, origin + size);
      r == if code.None? then GaveUp
           else if |code.value| > relocated.size then TooSmall(end - origin)
           else Fixed(code.value, end - origin)
  {
    hide Progress, At, FragAt, JmpAbsolute, Finish, Relocated, Stops;
    RelocatedExact(dec, mem0, origin, origin + size);
    var currOrig: nat, currRelo: nat, code: seq<Byte> := origin, relocated.addr, [];
    var stop := origin + size;
    PrependNothing(Relocated(dec, mem0, origin, stop));
    while currOrig < stop
      invariant currRelo == relocated.addr + |code|
      invariant Prepend(code, Relocated(dec, mem0, currOrig, stop)) == Relocated(dec, mem0, origin, stop)
      invariant Finish(dec, mem0, currOrig, stop) == Finish(dec, mem0, origin, stop)
    {
      LengthPositive(dec, mem0, currOrig);
      PrependStep(dec, mem0, currOrig, stop, code);
      var frag := FragAt(dec, mem0, currOrig);
      if frag.None? {
        return GaveUp;
      }
      code := code + frag.value;
      currOrig := Behind(dec, mem0, currOrig);
      currRelo := relocated.addr + |code|;
    }
    AtEnd(dec, mem0, currOrig, stop, code);
    if branch {
      var stub, currentIp := currRelo + 6, relocated.addr + |code| + 6;
      var offset := Signed32(stub - currentIp);
      TailIsJump(currOrig);
      code := code + ([0xFF, 0x25] + ToBytes(offset % TWO32, 4) + ToBytes(currOrig, 8));
    } else {
      assert code + [] == code;
    }
    if |code| > relocated.size {
      return TooSmall(currOrig - origin);
    }
    return Fixed(code, currOrig - origin);
  }

  lemma PrependNothing(rest: Option<seq<Byte>>)
    ensures Prepend([], rest) == rest
  {
    if rest.Some? {
      assert [] + rest.value == rest.value;
    }
  }

  lemma AtEnd(dec: Decoder, mem0: Memory, ip: nat, stop: nat, code: seq<Byte>)
    requires ip >= stop
    ensures Finish(dec, mem0, ip, stop) == ip && Prepend(code, Relocated(dec, mem0, ip, stop)) == Some(code)
  {
    assert code + [] == code;
  }

  lemma TailIsJump(target: nat)
    ensures [0xFF, 0x25] + ToBytes(Signed32(0) % TWO32, 4) + ToBytes(target, 8) == JmpAbsolute(target)
  {
    assert ToBytes(0, 4) == [0, 0, 0, 0];
  }

  /**
    The emitted code, wherever it is placed, does what the original block does, from every
    state whose run through the block executes only instructions that the relocator reads
    right and jcc rel32 that are not taken.
   */
  lemma EmittedSimulates(dec: Decoder, cpu: Cpu, mem0: Memory, mem1: Memory, origin: nat, size: nat, r: nat, core: nat)
      returns (n: nat, back: nat, at: nat, cont: nat)
    requires Progress(dec) && Decided(cpu) && RunRight(dec, cpu, mem0, origin, origin + size, core)
    requires Emitted(dec, mem0, origin, size, true).Some? && Holds(mem1, r, Emitted(dec, mem0, origin, size, true).value)
    requires r + |Emitted(dec, mem0, origin, size, true).value| < TWO64 && Finish(dec, mem0, origin, origin + size) < TWO64
    ensures BlockAgrees(dec, cpu, mem0, mem1, origin, origin + size, r, core, n, back, at, cont)
  {
    hide Progress, Decided, RunRight, BlockAgrees, Holds, Relocated, Finish, JmpAbsolute;
    n, back, at, cont := BlockSimulates(dec, cpu, mem0, mem1, origin, origin + size, r, core);
  }

  // ---------------------------------------------------------------- growing the block

  /** The OS offers a page that is not mapped yet and lets it be made executable. */
  ghost predicate Usable(a: M.MemoryAllocator, page: nat, permitted: bool)
    reads a, a.os
  {
    page != 0 && a.FreshGrant(page) && permitted
  }

  /** Why there is no block of n bytes: it is more than a page, or nothing is free and no page is to be had. */
  ghost predicate Refused(a: M.MemoryAllocator, n: nat, page: nat, permitted: bool)
    reads a, a.os, a.Allocators()
  {
    n > a.pageSize || (a.Full(n, true) && !Usable(a, page, permitted))
  }

  /** Allocate an executable block; the OS may offer any page that is free, or none. */
  method Request(a: M.MemoryAllocator, n: nat, offer: (nat, bool)) returns (block: M.MemBlock)
    requires a.Valid() && n > 0
    modifies a, a.os, a.Allocators()
    ensures a.Valid() && fresh(a.Allocators() - old(a.Allocators()))
    ensures block.addr == 0 || (block.size == n <= a.pageSize && a.Granted(a.records, block, true))
    ensures block.addr == 0 ==> a.records == old(a.records) && Refused(a, n, offer.0, offer.1)
    ensures block.addr == 0 <==> old(Refused(a, n, offer.0, offer.1))
    ensures M.Live(old(a.records)) <= M.Live(a.records)
    ensures forall r :: r in M.Live(a.records) ==> r in M.Live(old(a.records)) || (r.addr == block.addr && r.isExec)
    ensures block.addr != 0 ==> forall r :: r in M.Live(old(a.records)) ==> r.addr != block.addr
  {
    hide M.Live, M.PagesMatch, M.ListOk, M.RecordsDisjoint, M.PageLive, M.FirstReused, M.Floor, M.AlignUp8,
         M.MemoryAllocator.TakenFrom, M.MemoryAllocator.Cursors, M.MemoryAllocator.NoRoom, M.MemoryAllocator.Granted;
    var grant := if a.FreshGrant(offer.0) then offer.0 else 0;
    a.SizesPositive();
    a.RecordSizes();
    ghost var was := a.records;
    block := a.Alloc(n, true, grant, offer.1);
    M.LiveAfter(was, a.records, block);
  }

  /** Give a block back. */
  method Discard(a: M.MemoryAllocator, block: M.MemBlock)
    requires a.Valid()
    modifies a, a.os
    ensures a.Valid() && a.Allocators() <= old(a.Allocators())
    ensures M.Live(a.records) ==
      if block.addr == 0 || block.size == 0 then M.Live(old(a.records))
      else set r | r in M.Live(old(a.records)) && !(r.addr == block.addr && r.isExec)
  {
    hide M.Tracked, M.PageLive, M.MarkFree, M.Without, M.Floor, M.Live, M.PagesMatch, M.ListOk, M.RecordsDisjoint;
    a.RecordSizes();
    M.FreeLive(a.records, block.addr, true, M.Floor(block.addr, a.pageSize));
    a.Free(block, true);
  }

  datatype Relocation = Done(origin: M.MemBlock, block: M.MemBlock, code: seq<Byte>) | NoMemory | Aborted

  /** The sizes asked for: 32 bytes, or 48 when a given block was too small, and then 16 more as long as the code does not fit. */
  ghost predicate Stepped(code: Option<seq<Byte>>, given: M.MemBlock, asked: nat) {
    var first := if given.addr != 0 then 48 else 32;
    && asked >= first && asked % 16 == 0
    && (given.addr != 0 ==> code.Some? && |code.value| > given.size)
    && (asked > first ==> code.Some? && |code.value| > asked - 16)
  }

  lemma SteppedFirst(code: Option<seq<Byte>>, given: M.MemBlock)
    ensures given.addr == 0 ==> Stepped(code, given, 32)
  {
  }

  /** What holds after a block was too small. */
  lemma SteppedNext(code: Option<seq<Byte>>, given: M.MemBlock, asked: nat, size: nat)
    requires if asked == 32 then given.addr != 0 ==> size == given.size else Stepped(code, given, asked)
    requires asked > 32 || given.addr == 0 ==> size == asked
    requires code.Some? && |code.value| > size
    ensures Stepped(code, given, asked + 16)
  {
    assert (asked + 16) % 16 == asked % 16;
  }

  lemma SteppedGiven(code: Option<seq<Byte>>, given: M.MemBlock, asked: nat)
    ensures Stepped(code, given, asked) && given.addr != 0 ==> code.Some? && |code.value| > given.size
  {
  }

  /** How a pass into a block of some size ends. */
  function Outcome(code: Option<seq<Byte>>, len: nat, size: nat): FixedResult {
    if code.None? then GaveUp else if |code.value| > size then TooSmall(len) else Fixed(code.value, len)
  }

  function EndOf(dec: Decoder, mem0: Memory, origin: M.MemBlock): (end: nat)
    ensures end >= origin.addr + origin.size
  {
    Finish(dec, mem0, origin.addr, origin.addr + origin.size)
  }

  /**
    Which blocks are live: those that were, except perhaps the one at `given`, and none
    that was not, except perhaps one at `added`; 0 stands for none.
   */
  ghost predicate LiveKept(was: set<M.AllocationRecord>, now: set<M.AllocationRecord>, given: nat, added: nat) {
    && (forall x :: x in was && (given == 0 || x.addr != given) ==> x in now)
    && (forall x :: x in now ==> x in was || (added != 0 && x.addr == added))
  }

  /** The given block is not live any more, unless its address was handed out again. */
  ghost predicate GivenGone(now: set<M.AllocationRecord>, given: M.MemBlock, added: nat) {
    given.addr != 0 && given.size != 0 ==> added == given.addr || forall x <- now :: !(x.addr == given.addr && x.isExec)
  }

  lemma LiveStays(was: set<M.AllocationRecord>, now: set<M.AllocationRecord>, given: nat, added: nat)
    requires LiveKept(was, now, given, added)
    ensures forall x :: x in was && (given == 0 || x.addr != given) ==> x in now
  {
  }

  lemma LiveSteps(was: set<M.AllocationRecord>, mid: set<M.AllocationRecord>, now: set<M.AllocationRecord>, given: M.MemBlock, added: nat)
    requires LiveKept(was, mid, given.addr, 0) && LiveKept(mid, now, 0, added)
    ensures LiveKept(was, now, given.addr, added)
    ensures GivenGone(mid, given, 0) ==> GivenGone(now, given, added)
  {
  }

  /** One attempt: ask for a block unless there is one, try it, and give it back if it is too small. */
  method Attempt(dec: Decoder, mem0: Memory, origin: M.MemBlock, given: M.MemBlock, expected: nat, branch: bool,
                 a: M.MemoryAllocator, offer: (nat, bool)) returns (pass: FixedResult, relocated: M.MemBlock)
    requires Progress(dec) && a.Valid() && expected > 0
    modifies a, a.os, a.Allocators()
    ensures a.Valid() && fresh(a.Allocators() - old(a.Allocators()))
    ensures given.addr != 0 ==> relocated == given
    ensures given.addr == 0 && relocated.addr != 0 ==> relocated.size == expected <= a.pageSize
    ensures given.addr == 0 && relocated.addr != 0 && pass.Fixed? ==> a.Granted(a.records, relocated, true)
    ensures relocated.addr == 0 ==> a.records == old(a.records) && Refused(a, expected, offer.0, offer.1)
    ensures given.addr == 0 ==> (relocated.addr == 0 <==> old(Refused(a, expected, offer.0, offer.1)))
    ensures relocated.addr != 0 ==>
      var code, end := Emitted(dec, mem0, origin.addr, origin.size, branch), EndOf(dec, mem0, origin);
      pass == Outcome(code, end - origin.addr, relocated.size)
    ensures LiveKept(M.Live(old(a.records)), M.Live(a.records), given.addr, if pass.TooSmall? then 0 else relocated.addr)
    ensures relocated.addr != 0 && pass.TooSmall? ==> GivenGone(M.Live(a.records), relocated, 0)
  {
    hide Progress, Finish, Emitted, M.Live, M.PagesMatch, M.ListOk, M.RecordsDisjoint, M.OnPage, M.PageLive;
    relocated := given;
    if relocated.addr == 0 {
      relocated := Request(a, expected, offer);
      if relocated.addr == 0 {
        return GaveUp, relocated;
      }
    }
    pass := RelocateFixed(dec, mem0, origin.addr, origin.size, relocated, branch);
    if pass.TooSmall? {
      Discard(a, relocated);
    }
  }

  /**
    Relocation with a block that grows by 16 bytes until the code fits.  It stops: the
    allocator serves no more than a page.  On success the code is in a block that holds it
    and that no block live before overlaps the address of; the blocks that were too small
    have been given back, and whatever else was live still is.  Without memory it ends only
    when the next size is refused.  It gives up exactly when an instruction of the block is
    not relocated and there was a block to begin with.
   */
  method GenRelocateCode(dec: Decoder, mem0: Memory, origin0: M.MemBlock, given: M.MemBlock, branch: bool,
                         a: M.MemoryAllocator, offers: nat -> (nat, bool)) returns (r: Relocation, asked: nat)
    requires Progress(dec) && a.Valid()
    modifies a, a.os, a.Allocators()
    ensures a.Valid()
    ensures r.Aborted? <==>
              && Stops(dec, mem0, origin0.addr, origin0.addr + origin0.size)
              && (given.addr != 0 || !old(Refused(a, 32, offers(32).0, offers(32).1)))
    ensures r.Aborted? ==> Emitted(dec, mem0, origin0.addr, origin0.size, branch).None?
    ensures r.Done? ==>
      && Emitted(dec, mem0, origin0.addr, origin0.size, branch) == Some(r.code) && r.block.size == |r.code|
      && r.origin == M.MemBlock(origin0.addr, EndOf(dec, mem0, origin0) - origin0.addr)
      && if given.addr != 0 && |r.code| <= given.size then r.block.addr == given.addr
         else
           && |r.code| <= asked <= a.pageSize && a.Granted(a.records, M.MemBlock(r.block.addr, asked), true)
           && Stepped(Some(r.code), given, asked)
    ensures r.NoMemory? ==>
      Refused(a, asked, offers(asked).0, offers(asked).1) && Stepped(Emitted(dec, mem0, origin0.addr, origin0.size, branch), given, asked)
    ensures forall x :: x in M.Live(old(a.records)) && (given.addr == 0 || x.addr != given.addr) ==> x in M.Live(a.records)
    ensures !r.Aborted? ==> LiveKept(M.Live(old(a.records)), M.Live(a.records), given.addr, if r.Done? then r.block.addr else 0)
    ensures !r.Aborted? && !(r.Done? && |r.code| <= given.size) ==>
              GivenGone(M.Live(a.records), given, if r.Done? then r.block.addr else 0)
  {
    hide Progress, EndOf, Emitted, Refused, Stops, Stepped, LiveKept, GivenGone, M.Live,
         M.MemoryAllocator.Valid, M.MemoryAllocator.Full, M.MemoryAllocator.Granted;
    RelocatedExact(dec, mem0, origin0.addr, origin0.addr + origin0.size);
    EmittedNone(dec, mem0, origin0.addr, origin0.size, branch);
    ghost var code := Emitted(dec, mem0, origin0.addr, origin0.size, branch);
    SteppedFirst(code, given);
    asked := 32;
    var pass, relocated := Attempt(dec, mem0, origin0, given, asked, branch, a, offers(asked));
    if relocated.addr == 0 {
      GoneNone(M.Live(a.records), given, 0);
      LiveStays(M.Live(old(a.records)), M.Live(a.records), given.addr, 0);
      return NoMemory, asked;
    }
    LiveStays(M.Live(old(a.records)), M.Live(a.records), given.addr, if pass.TooSmall? then 0 else relocated.addr);
    match pass
    case GaveUp => return Aborted, asked;
    case Fixed(emitted, len) =>
      GoneNone(M.Live(a.records), given, relocated.addr);
      return Done(M.MemBlock(origin0.addr, len), M.MemBlock(relocated.addr, |emitted|), emitted), asked;
    case TooSmall(len) =>
      EmittedFixed(dec, mem0, origin0, branch);
      SteppedNext(code, given, asked, relocated.size);
      GoneNone(M.Live(a.records), given, 0);
      ghost var mid := M.Live(a.records);
      r, asked := Retry(dec, mem0, M.MemBlock(origin0.addr, len), given, branch, a, offers);
      LiveSteps(M.Live(old(a.records)), mid, M.Live(a.records), given, if r.Done? then r.block.addr else 0);
      LiveStays(M.Live(old(a.records)), M.Live(a.records), given.addr, if r.Done? then r.block.addr else 0);
      SteppedGiven(code, given, asked);
  }

  /** The turns after the first, which end with a block that is large enough or with a refusal. */
  method Retry(dec: Decoder, mem0: Memory, origin: M.MemBlock, ghost given: M.MemBlock, branch: bool,
               a: M.MemoryAllocator, offers: nat -> (nat, bool)) returns (r: Relocation, asked: nat)
    requires Progress(dec) && a.Valid() && Emitted(dec, mem0, origin.addr, origin.size, branch).Some?
    requires EndOf(dec, mem0, origin) == origin.addr + origin.size
    requires Stepped(Emitted(dec, mem0, origin.addr, origin.size, branch), given, 48)
    modifies a, a.os, a.Allocators()
    ensures a.Valid() && !r.Aborted?
    ensures Stepped(Emitted(dec, mem0, origin.addr, origin.size, branch), given, asked)
    ensures r.Done? ==>
      && r.code == Emitted(dec, mem0, origin.addr, origin.size, branch).value && r.block.addr != 0 && r.block.size == |r.code|
      && r.origin == origin && |r.code| <= asked <= a.pageSize
      && a.Granted(a.records, M.MemBlock(r.block.addr, asked), true)
    ensures r.NoMemory? ==> Refused(a, asked, offers(asked).0, offers(asked).1)
    ensures LiveKept(M.Live(old(a.records)), M.Live(a.records), 0, if r.Done? then r.block.addr else 0)
  {
    hide Progress, EndOf, Emitted, Refused, Stepped, LiveKept, GivenGone, M.Live,
         M.MemoryAllocator.Valid, M.MemoryAllocator.Full, M.MemoryAllocator.Granted;
    ghost var code := Emitted(dec, mem0, origin.addr, origin.size, branch);
    asked := 48;
    LiveSame(M.Live(a.records));
    while true
      invariant a.Valid() && fresh(a.Allocators() - old(a.Allocators())) && asked > 32 && Stepped(code, given, asked)
      invariant LiveKept(M.Live(old(a.records)), M.Live(a.records), 0, 0)
      decreases a.pageSize - asked
    {
      ghost var mid := M.Live(a.records);
      var pass, relocated := Attempt(dec, mem0, origin, M.NO_BLOCK, asked, branch, a, offers(asked));
      LiveSteps(M.Live(old(a.records)), mid, M.Live(a.records), M.NO_BLOCK, if pass.TooSmall? then 0 else relocated.addr);
      if relocated.addr == 0 {
        return NoMemory, asked;
      }
      if pass.Fixed? {
        return Done(M.MemBlock(origin.addr, pass.originLen), M.MemBlock(relocated.addr, |pass.code|), pass.code), asked;
      }
      SteppedNext(code, given, asked, relocated.size);
      asked := asked + 16;
    }
  }

  lemma LiveSame(live: set<M.AllocationRecord>)
    ensures LiveKept(live, live, 0, 0)
  {
  }

  lemma GoneNone(now: set<M.AllocationRecord>, given: M.MemBlock, added: nat)
    ensures given.addr == 0 ==> GivenGone(now, given, added)
  {
  }

  lemma EmittedNone(dec: Decoder, mem0: Memory, origin: nat, size: nat, branch: bool)
    ensures Emitted(dec, mem0, origin, size, branch).None? <==> Relocated(dec, mem0, origin, origin + size).None?
  {
  }

  /** The origin's length settles on the first pass. */
  lemma EmittedFixed(dec: Decoder, mem0: Memory, origin: M.MemBlock, branch: bool)
    requires Progress(dec)
    ensures var end := EndOf(dec, mem0, origin);
      var settled := M.MemBlock(origin.addr, end - origin.addr);
      && EndOf(dec, mem0, settled) == end
      && Emitted(dec, mem0, origin.addr, settled.size, branch) == Emitted(dec, mem0, origin.addr, origin.size, branch)
  {
    hide Progress, JmpAbsolute, Finish, Relocated;
    FinishFixed(dec, mem0, origin.addr, origin.addr + origin.size);
  }
}
