/** `context_switch`, instruction by instruction, and the words it leaves on the two stacks. */
module ContextSwitch {
  import opened Words

  /** The words of the address space. */
  type Store = m: seq<Word> | |m| == 0x4000_0000 witness seq(0x4000_0000, _ => 0)

  /** The word at a byte address, which is taken to be aligned. */
  function Get(m: Store, a: Word): Word {
    m[a / 4]
  }

  function Set(m: Store, a: Word, v: Word): Store {
    m[a / 4 := v]
  }

  /** A store changes one word. */
  lemma SetGets(m: Store, a: Word, v: Word)
    requires a % 4 == 0
    ensures forall b: Word | b % 4 == 0 :: Get(Set(m, a, v), b) == if b == a then v else Get(m, b)
  {}

  /** The registers that a call preserves, the stack pointer and the program counter. */
  datatype Regs = Regs(ebx: Word, esi: Word, edi: Word, ebp: Word, esp: Word, eip: Word)

  datatype Cpu = Cpu(store: Store, regs: Regs)

  function Up(a: Word, k: nat): (r: Word)
    ensures a + k < 0x1_0000_0000 ==> r == a + k
  {
    Wrap(a + k)
  }

  function Down(a: Word, k: nat): (r: Word)
    requires k <= 0x1_0000_0000
    ensures k <= a ==> r == a - k
  {
    Wrap(a + 0x1_0000_0000 - k)
  }

  lemma DownDown(a: Word, k: nat)
    requires k <= 0xFFFF_FFFC
    ensures Down(Down(a, k), 4) == Down(a, k + 4)
  {}

  lemma UpDown(a: Word, k: nat)
    requires 16 <= k <= 32
    ensures Up(Down(a, 16), k) == Up(a, k - 16)
  {}

  lemma UpUp(a: Word, k: nat)
    ensures Up(Up(a, k), 4) == Up(a, k + 4)
  {}

  /** Registers and program counter as found in the five words from n up, the stack pointer past
      them. */
  function Loaded(store: Store, n: Word): Regs {
    Regs(Get(store, n), Get(store, Up(n, 4)), Get(store, Up(n, 8)), Get(store, Up(n, 12)), Up(n, 20),
         Get(store, Up(n, 16)))
  }

  function WithSaved(store: Store, sp: Word, ebp: Word, edi: Word, esi: Word, ebx: Word): Store {
    Set(Set(Set(Set(store, Down(sp, 4), ebp), Down(sp, 8), edi), Down(sp, 12), esi), Down(sp, 16), ebx)
  }

  /** The registers are saved below the return address, the stack pointer where the first argument
      says, and everything is loaded from where the second argument says. */
  function Switched(c: Cpu): Cpu {
    var sp := c.regs.esp;
    var saved := WithSaved(c.store, sp, c.regs.ebp, c.regs.edi, c.regs.esi, c.regs.ebx);
    var noted := Set(saved, Get(saved, Up(sp, 4)), Down(sp, 16));
    Cpu(noted, Loaded(noted, Get(noted, Up(sp, 8))))
  }

  class Machine {
    var store: Store
    var eax: Word
    var ebx: Word
    var esi: Word
    var edi: Word
    var ebp: Word
    var esp: Word
    var eip: Word

    constructor (store: Store, regs: Regs)
      ensures Snapshot() == Cpu(store, regs)
    {
      this.store, eax := store, 0;
      ebx, esi, edi, ebp, esp, eip := regs.ebx, regs.esi, regs.edi, regs.ebp, regs.esp, regs.eip;
    }

    ghost function Snapshot(): Cpu
      reads this
    {
      Cpu(store, Regs(ebx, esi, edi, ebp, esp, eip))
    }

    method Push(w: Word)
      modifies this`esp, this`store
      ensures esp == Down(old(esp), 4) && store == Set(old(store), esp, w)
    {
      esp := Down(esp, 4);
      store := Set(store, esp, w);
    }

    method Pop() returns (w: Word)
      modifies this`esp
      ensures esp == Up(old(esp), 4) && w == Get(store, old(esp))
    {
      w := Get(store, esp);
      esp := Up(esp, 4);
    }

    /** The four pushes. */
    method SaveRegisters()
      modifies this`esp, this`store
      ensures esp == Down(old(esp), 16) && store == WithSaved(old(store), old(esp), ebp, edi, esi, ebx)
    {
      hide Get, Set, Up, Down;
      ghost var sp := esp;
      Push(ebp);
      Push(edi);
      DownDown(sp, 4);
      Push(esi);
      DownDown(sp, 8);
      Push(ebx);
      DownDown(sp, 12);
    }

    /** The four pops and the return. */
    method LoadRegisters()
      modifies this`ebx, this`esi, this`edi, this`ebp, this`esp, this`eip
      ensures Regs(ebx, esi, edi, ebp, esp, eip) == Loaded(store, old(esp))
    {
      hide Get, Up;
      ghost var n := esp;
      UpUp(n, 4);
      UpUp(n, 8);
      UpUp(n, 12);
      UpUp(n, 16);
      ebx := Pop();
      esi := Pop();
      edi := Pop();
      ebp := Pop();
      eip := Pop();
    }

    /** `context_switch`, entered by a call: the return address is at the top of the stack, the two
        arguments above it. */
    method ContextSwitch()
      modifies this
      ensures Snapshot() == Switched(old(Snapshot()))
    {
      hide Get, Set, Up, Down, Loaded;
      ghost var sp := esp;
      SaveRegisters();
      UpDown(sp, 20);
      UpDown(sp, 24);
      eax := Get(store, Up(esp, 20));
      store := Set(store, eax, esp);
      esp := Get(store, Up(esp, 24));
      LoadRegisters();
    }
  }

  /** The caller's side: both arguments and the return address are pushed. */
  function Called(c: Cpu, slot: Word, newEsp: Word, ret: Word): Cpu {
    var sp := c.regs.esp;
    Cpu(Set(Set(Set(c.store, Down(sp, 4), newEsp), Down(sp, 8), slot), Down(sp, 12), ret),
        c.regs.(esp := Down(sp, 12)))
  }

  /** The eight words that the whole call stores, in their order. */
  lemma SwitchStores(c: Cpu, slot: Word, newEsp: Word, ret: Word)
    requires 28 <= c.regs.esp && c.regs.esp % 4 == 0 && slot % 4 == 0 && !(c.regs.esp - 28 <= slot < c.regs.esp)
    ensures Switched(Called(c, slot, newEsp, ret)).store ==
            (var m := Set(Set(Set(c.store, c.regs.esp - 4, newEsp), c.regs.esp - 8, slot), c.regs.esp - 12, ret);
             var m' := Set(Set(m, c.regs.esp - 16, c.regs.ebp), c.regs.esp - 20, c.regs.edi);
             Set(Set(Set(m', c.regs.esp - 24, c.regs.esi), c.regs.esp - 28, c.regs.ebx), slot, c.regs.esp - 28))
  {
    hide Get, Set, Up, Down;
    var sp, r := c.regs.esp, c.regs;
    var m2 := Set(Set(c.store, sp - 4, newEsp), sp - 8, slot);
    var m3 := Set(m2, sp - 12, ret);
    var m4 := Set(m3, sp - 16, r.ebp);
    var m5 := Set(m4, sp - 20, r.edi);
    var m6 := Set(m5, sp - 24, r.esi);
    var m7 := Set(m6, sp - 28, r.ebx);
    SetGets(Set(c.store, sp - 4, newEsp), sp - 8, slot);
    SetGets(m2, sp - 12, ret);
    SetGets(m3, sp - 16, r.ebp);
    SetGets(m4, sp - 20, r.edi);
    SetGets(m5, sp - 24, r.esi);
    SetGets(m6, sp - 28, r.ebx);
    assert Get(m7, sp - 8) == slot;
  }

  /** The whole call, with what the thread switched away from is to find when it resumes. */
  lemma SwitchEffect(c: Cpu, slot: Word, newEsp: Word, ret: Word, c': Cpu)
    requires 28 <= c.regs.esp && c.regs.esp % 4 == 0 && slot % 4 == 0 && !(c.regs.esp - 28 <= slot < c.regs.esp)
    requires c' == Switched(Called(c, slot, newEsp, ret))
    ensures c'.regs == Loaded(c'.store, newEsp)
    ensures Get(c'.store, slot) == c.regs.esp - 28
    ensures Loaded(c'.store, c.regs.esp - 28) == c.regs.(esp := c.regs.esp - 8, eip := ret)
    ensures forall a: Word | a % 4 == 0 && a != slot && !(c.regs.esp - 28 <= a < c.regs.esp) ::
              Get(c'.store, a) == Get(c.store, a)
  {
    hide Get, Set, Up, Down;
    var sp, r := c.regs.esp, c.regs;
    var m1 := Set(c.store, sp - 4, newEsp);
    var m2 := Set(m1, sp - 8, slot);
    var m3 := Set(m2, sp - 12, ret);
    SetGets(c.store, sp - 4, newEsp);
    SetGets(m1, sp - 8, slot);
    SetGets(m2, sp - 12, ret);
    var m4 := Set(m3, sp - 16, r.ebp);
    var m5 := Set(m4, sp - 20, r.edi);
    var m6 := Set(m5, sp - 24, r.esi);
    var m7 := Set(m6, sp - 28, r.ebx);
    SetGets(m3, sp - 16, r.ebp);
    SetGets(m4, sp - 20, r.edi);
    SetGets(m5, sp - 24, r.esi);
    SetGets(m6, sp - 28, r.ebx);
    assert Get(m7, sp - 8) == slot && Get(m7, sp - 4) == newEsp;
    SetGets(m7, slot, sp - 28);
    assert c'.store == Set(m7, slot, sp - 28);
  }
}
