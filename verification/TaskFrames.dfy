// Interrupt frames: what the processor and the stub push (kernel/isr_stubs.asm), and what
// popping them puts back into the registers.

module TaskFrames {

  // Words of RAM by byte address: ram[a] is the word at a, for a multiple of 4.
  type Ram = seq<nat>

  const EAX: nat := 44                  // offset of the saved eax
  const KERNEL_FRAME: nat := 68         // gs..ds, pushad, int_no, err_code, eip, cs, eflags
  const USER_FRAME: nat := 76           // the same and user esp, ss

  // The registers a task resumes with.
  datatype Ctx = Ctx(gs: nat, fs: nat, es: nat, ds: nat, edi: nat, esi: nat, ebp: nat, ebx: nat, edx: nat, ecx: nat,
                     eax: nat, eip: nat, cs: nat, eflags: nat, esp: nat, ss: nat)

  // Privilege level in the code selector.
  predicate Ring3(cs: nat) { cs % 4 == 3 }

  function FrameSize(cs: nat): nat { if Ring3(cs) then USER_FRAME else KERNEL_FRAME }

  // Where the frame of an interrupt goes: on the TSS stack from ring 3, below the current
  // stack pointer from ring 0.
  function FrameTop(c: Ctx, esp0: nat): nat { if Ring3(c.cs) then esp0 else c.esp }

  predicate FrameFits(ram: Ram, fp: nat) { fp + USER_FRAME <= |ram| }

  // Store words at fp, fp + 4, ...
  function Put(ram: Ram, fp: nat, words: seq<nat>): (r: Ram)
    ensures |r| == |ram|
    decreases |words|
  {
    if |words| == 0 || fp >= |ram| then ram else Put(ram[fp := words[0]], fp + 4, words[1..])
  }

  lemma {:induction false} PutAt(ram: Ram, fp: nat, words: seq<nat>, a: nat)
    requires a < |ram| && fp + 4 * |words| <= |ram|
    ensures Put(ram, fp, words)[a] ==
            if fp <= a < fp + 4 * |words| && (a - fp) % 4 == 0 then words[(a - fp) / 4] else ram[a]
    decreases |words|
  {
    if |words| > 0 {
      PutAt(ram[fp := words[0]], fp + 4, words[1..], a);
      if a >= fp + 4 { assert (a - fp) / 4 == (a - fp - 4) / 4 + 1 && (a - fp) % 4 == (a - fp - 4) % 4; }
    }
  }

  // The words pushed for vector `vec`; pushad also saves a stack pointer that popad ignores.
  function Words(c: Ctx, vec: nat, err: nat, dummy: nat): (w: seq<nat>)
    ensures 4 * |w| == FrameSize(c.cs)
  {
    [c.gs, c.fs, c.es, c.ds, c.edi, c.esi, c.ebp, dummy, c.ebx, c.edx, c.ecx, c.eax, vec, err, c.eip, c.cs, c.eflags]
    + if Ring3(c.cs) then [c.esp, c.ss] else []
  }

  // Popping the frame at fp. From ring 0 to ring 0 the stack pointer ends up above it.
  function Load(ram: Ram, fp: nat): Ctx {
    if !FrameFits(ram, fp) then Ctx(0, 0, 0, 0, 0, 0, 0, 0, 0, 0, 0, 0, 0, 0, 0, 0)
    else
      var user := Ring3(ram[fp + 60]);
      Ctx(ram[fp], ram[fp + 4], ram[fp + 8], ram[fp + 12], ram[fp + 16], ram[fp + 20], ram[fp + 24],
          ram[fp + 32], ram[fp + 36], ram[fp + 40], ram[fp + 44], ram[fp + 56], ram[fp + 60], ram[fp + 64],
          if user then ram[fp + 68] else fp + KERNEL_FRAME, if user then ram[fp + 72] else 0)
  }

  // Registers a ring-0 context has besides its stack pointer.
  predicate CtxOk(c: Ctx) { !Ring3(c.cs) ==> c.ss == 0 }

  // Pushing and popping restores every register.
  lemma PushPop(ram: Ram, c: Ctx, esp0: nat, vec: nat, err: nat, dummy: nat)
    requires CtxOk(c) && FrameSize(c.cs) <= FrameTop(c, esp0)
    requires FrameFits(ram, FrameTop(c, esp0) - FrameSize(c.cs))
    ensures Load(Put(ram, FrameTop(c, esp0) - FrameSize(c.cs), Words(c, vec, err, dummy)),
            FrameTop(c, esp0) - FrameSize(c.cs)) == c
  {
    var fp, w := FrameTop(c, esp0) - FrameSize(c.cs), Words(c, vec, err, dummy);
    forall i: nat | i < |w| ensures Put(ram, fp, w)[fp + 4 * i] == w[i] { PutAt(ram, fp, w, fp + 4 * i); }
    WordsRead(ram, Put(ram, fp, w), fp, c, vec, err, dummy);
  }

  lemma WordsRead(ram: Ram, ram': Ram, fp: nat, c: Ctx, vec: nat, err: nat, dummy: nat)
    requires CtxOk(c) && FrameFits(ram', fp) && (!Ring3(c.cs) ==> c.esp == fp + KERNEL_FRAME)
    requires forall i: nat :: i < |Words(c, vec, err, dummy)| ==> ram'[fp + 4 * i] == Words(c, vec, err, dummy)[i]
    ensures Load(ram', fp) == c
  {
    var w := Words(c, vec, err, dummy);
    assert ram'[fp + 4 * 0] == w[0] && ram'[fp + 4 * 1] == w[1] && ram'[fp + 4 * 2] == w[2] && ram'[fp + 4 * 3] == w[3];
    assert ram'[fp + 4 * 4] == w[4] && ram'[fp + 4 * 5] == w[5] && ram'[fp + 4 * 6] == w[6] && ram'[fp + 4 * 8] == w[8];
    assert ram'[fp + 4 * 9] == w[9] && ram'[fp + 4 * 10] == w[10] && ram'[fp + 4 * 11] == w[11];
    assert ram'[fp + 4 * 14] == w[14] && ram'[fp + 4 * 15] == w[15] && ram'[fp + 4 * 16] == w[16];
    if Ring3(c.cs) {
      assert ram'[fp + 4 * 17] == w[17] && ram'[fp + 4 * 18] == w[18];
    }
  }

  // Words in [lo, hi) are as before.
  ghost predicate Kept(ram: Ram, ram': Ram, lo: nat, hi: nat) {
    |ram'| == |ram| && forall a: nat :: lo <= a < hi && a < |ram| ==> ram'[a] == ram[a]
  }

  // A frame reads the same when its words are kept.
  lemma LoadKept(ram: Ram, ram': Ram, fp: nat)
    requires FrameFits(ram, fp) && Kept(ram, ram', fp, fp + FrameSize(ram[fp + 60]))
    ensures Load(ram', fp) == Load(ram, fp) && ram'[fp + 60] == ram[fp + 60]
  {
  }

  // A copy of the frame at another address, with eax zeroed, is the same context with eax 0.
  lemma CopiedFrame(ram: Ram, ram': Ram, fp: nat, to: nat)
    requires FrameFits(ram, fp) && FrameFits(ram', to) && Ring3(ram[fp + 60])
    requires forall i: nat :: i < 19 ==> ram'[to + 4 * i] == if i == 11 then 0 else ram[fp + 4 * i]
    ensures Load(ram', to) == Load(ram, fp).(eax := 0)
  {
    assert ram'[to + 4 * 0] == ram[fp + 4 * 0] && ram'[to + 4 * 1] == ram[fp + 4 * 1] &&
        ram'[to + 4 * 2] == ram[fp + 4 * 2];
    assert ram'[to + 4 * 3] == ram[fp + 4 * 3] && ram'[to + 4 * 4] == ram[fp + 4 * 4] &&
        ram'[to + 4 * 5] == ram[fp + 4 * 5];
    assert ram'[to + 4 * 6] == ram[fp + 4 * 6] && ram'[to + 4 * 8] == ram[fp + 4 * 8] &&
        ram'[to + 4 * 9] == ram[fp + 4 * 9];
    assert ram'[to + 4 * 10] == ram[fp + 4 * 10] && ram'[to + 4 * 11] == 0 && ram'[to + 4 * 14] == ram[fp + 4 * 14];
    assert ram'[to + 4 * 15] == ram[fp + 4 * 15] && ram'[to + 4 * 16] == ram[fp + 4 * 16];
    assert ram'[to + 4 * 17] == ram[fp + 4 * 17] && ram'[to + 4 * 18] == ram[fp + 4 * 18];
  }
}
