// Calls into kernel/paging.c as its callers make them: outside the domain of definition a
// creating call is Wild and the others do nothing.

module SpaceCalls {
  import opened Paging
  import Frames

  predicate SpaceUsable(vm: Vm, c: nat) {
    Shape(vm) && c < Frames.FRAME_COUNT && DirectoryInRange(vm, c)
  }

  function ForkOf(vm: Vm, c: nat): Outcome {
    if SpaceUsable(vm, c) then Fork(vm, c) else Outcome.Wild
  }

  function CreateOf(vm: Vm): Outcome {
    if Shape(vm) then Create(vm) else Outcome.Wild
  }

  function DestroyOf(vm: Vm, c: nat): Vm {
    if SpaceUsable(vm, c) then Destroy(vm, c) else vm
  }

  function MapOf(vm: Vm, c: nat, vaddr: nat, nbytes: nat): (Vm, bool) {
    if SpaceUsable(vm, c) then MapRegion(vm, c, vaddr, nbytes) else (vm, false)
  }

  function LoadOf(vm: Vm, c: nat): Vm {
    if Shape(vm) && c < Frames.FRAME_COUNT then Switch(vm, c) else vm
  }
}
