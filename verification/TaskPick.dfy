// The cyclic search of sched_tick and sched_exit_current.

module TaskPick {
  import opened Tasks

  // Slot s is j steps after `from` in a table of `count` slots.
  function StepsTo(from: nat, s: nat, count: nat): (j: nat)
    requires from < count && s < count
    ensures j < count && (from + j) % count == s && (j == 0 <==> s == from)
  {
    if s >= from then s - from else s + count - from
  }

  // The search misses nothing in its range.
  lemma {:induction false} NextReadyNone(tasks: seq<Task>, count: nat, from: nat, i: nat, last: nat, j: nat)
    requires 0 < count <= |tasks| == MAX_TASKS && i <= j <= last && tasks[(from + j) % count].ready
    ensures NextReady(tasks, count, from, i, last) != MAX_TASKS
    decreases last + 1 - i
  {
    if i < j && !tasks[(from + i) % count].ready { NextReadyNone(tasks, count, from, i + 1, last, j); }
  }

  lemma {:induction false} NextReadyOther(tasks: seq<Task>, count: nat, from: nat, i: nat, last: nat)
    requires 0 < count <= |tasks| == MAX_TASKS && from < count && 1 <= i && last < count
    ensures NextReady(tasks, count, from, i, last) != from
    decreases last + 1 - i
  {
    if i <= last {
      OtherSlot(from, i, count);
      NextReadyOther(tasks, count, from, i + 1, last);
    }
  }

  lemma OtherSlot(from: nat, i: nat, count: nat)
    requires from < count && 0 < i < count
    ensures (from + i) % count != from
  {
    if from + i < count {
      SmallMod(from + i, count);
    } else {
      assert (from + i) % count == from + i - count by { SmallMod(from + i - count, count); }
    }
  }

  lemma SmallMod(x: nat, m: nat)
    requires x < m
    ensures x % m == x && (x + m) % m == x
  {
  }
}
