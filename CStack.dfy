/** The growable arrays of the C tools: the `STACK_*` macros of
 * `common/stack.h` (used by the emulator and the Intel HEX reader), which
 * grow the capacity by half, and the older copy in `assembler/stack.h`,
 * which doubles it and has no reserve or resize.
 *
 * A stack is its capacity `size`, the number of items in use `used` and
 * the allocation `slots`, one per unit of capacity. Memory that `malloc` or
 * `realloc` hands out without initialising it is `None`; an element stored
 * or zero-filled is `Some`. A failed allocation is not modelled: every
 * allocation succeeds. */
module CStack {
  import opened Wrappers

  /** `_STACK_GROWTH`: the old size plus half of it, rounded up. */
  function Growth(n: nat): (r: nat)
  {
    n + (n + 1) / 2
  }

  /** Growth enlarges every non-zero size, by at least one, and leaves a
   * zero size at zero. */
  lemma GrowthGrows(n: nat)
    ensures n >= 1 ==> Growth(n) > n && Growth(n) <= 2 * n
    ensures n == 0 ==> Growth(n) == 0
  {
  }

  /** `_stack_inflated_size`: the first size in the growth sequence from
   * `oldSize` that covers `request`. From a zero size the sequence never
   * moves, so the request must already be met. */
  function InflatedSize(oldSize: nat, request: nat): (r: nat)
    requires oldSize > 0 || request <= oldSize
    ensures r >= request && r >= oldSize
    ensures oldSize >= request ==> r == oldSize
    ensures oldSize < request ==> exists p :: oldSize <= p < request && Growth(p) == r
    decreases request - oldSize
  {
    if oldSize >= request then oldSize
    else
      GrowthGrows(oldSize);
      var r := InflatedSize(Growth(oldSize), request);
      assert Growth(oldSize) >= request ==> Growth(oldSize) == r;
      r
  }

  /** The growth the macros evidently intend: a zero capacity first grows to
   * one, and from there the growth sequence runs as before. It reaches
   * every request from every old size, and wherever the source's loop ends
   * it gives the same size. */
  function CorrectedInflatedSize(oldSize: nat, request: nat): (r: nat)
    ensures r >= request && r >= oldSize
    ensures oldSize >= request ==> r == oldSize
    ensures oldSize > 0 || request <= oldSize ==> r == InflatedSize(oldSize, request)
    ensures oldSize == 0 && request > 0 ==> r == InflatedSize(1, request)
  {
    if oldSize >= request then oldSize
    else if oldSize == 0 then InflatedSize(1, request)
    else InflatedSize(oldSize, request)
  }

  /** The loop of `_stack_inflated_size`. */
  method InflateSize(oldSize: nat, request: nat) returns (size: nat)
    requires oldSize > 0 || request <= oldSize
    ensures size == InflatedSize(oldSize, request)
  {
    size := oldSize;
    while size < request
      invariant size >= oldSize && InflatedSize(size, request) == InflatedSize(oldSize, request)
      decreases request - size
    {
      GrowthGrows(size);
      size := Growth(size);
    }
  }

  /** From size zero the loop makes no progress whatever it is asked for:
   * every step of the growth sequence is zero again. */
  lemma {:induction false} GrowthStuckAtZero(steps: nat)
    ensures GrowthSteps(0, steps) == 0
  {
    if steps > 0 {
      GrowthStuckAtZero(steps - 1);
    }
  }

  function GrowthSteps(n: nat, steps: nat): nat
  {
    if steps == 0 then n else Growth(GrowthSteps(n, steps - 1))
  }

  function Indeterminate<T>(n: nat): (s: seq<Option<T>>)
    ensures |s| == n && forall i :: 0 <= i < n ==> s[i] == None
  {
    seq(n, _ => None)
  }

  function Zeros<T>(n: nat, zero: T): (s: seq<Option<T>>)
    ensures |s| == n && forall i :: 0 <= i < n ==> s[i] == Some(zero)
  {
    seq(n, _ => Some(zero))
  }

  function Max(a: nat, b: nat): nat
  {
    if a < b then b else a
  }

  /** The allocation after `STACK_RESIZE`: grown to `size` by `realloc`,
   * then, as written, not filled at all, since the fill length is computed
   * from the already grown size and is always zero; corrected, the items
   * between the old and the new count are zeroed, as the macro's comment
   * promises. */
  function ResizedSlots<T>(slots: seq<Option<T>>, used: nat, newSize: nat, size: nat, asWritten: bool, zero: T): (r: seq<Option<T>>)
    requires used <= |slots| <= size && newSize <= size
    ensures |r| == size
  {
    var grown := slots + Indeterminate(size - |slots|);
    if asWritten || newSize <= used then grown
    else grown[..used] + Zeros(newSize - used, zero) + grown[newSize..]
  }

  /** Resizing keeps the items below both counts and the memory past the
   * new count; corrected, every new item is zero. */
  lemma ResizedSlotsKeep<T>(slots: seq<Option<T>>, used: nat, newSize: nat, size: nat, asWritten: bool, zero: T)
    requires used <= |slots| <= size && newSize <= size
    ensures var r := ResizedSlots(slots, used, newSize, size, asWritten, zero);
      (forall i :: 0 <= i < used && i < newSize ==> r[i] == slots[i]) &&
      (forall i :: newSize <= i < |slots| && used <= i ==> r[i] == slots[i]) &&
      (!asWritten ==> forall i :: used <= i < newSize ==> r[i] == Some(zero))
  {
    var r := ResizedSlots(slots, used, newSize, size, asWritten, zero);
    var grown := slots + Indeterminate<T>(size - |slots|);
    if !asWritten && used < newSize {
      assert forall i :: 0 <= i < used ==> r[i] == grown[i];
      assert forall i :: used <= i < newSize ==> r[i] == Zeros(newSize - used, zero)[i - used];
      assert forall i :: newSize <= i < size ==> r[i] == grown[i];
    }
  }

  /** The finding: a stack created with capacity 4 and resized to two
   * items holds, as written, two items of uninitialised memory; corrected,
   * two zeros. */
  lemma ResizeLeavesGarbage()
    ensures ResizedSlots(Indeterminate<int>(4), 0, 2, InflatedSize(4, 2), true, 0)[..2] == [None, None]
    ensures ResizedSlots(Indeterminate<int>(4), 0, 2, InflatedSize(4, 2), false, 0)[..2] == [Some(0), Some(0)]
  {
    assert InflatedSize(4, 2) == 4;
    ResizedSlotsKeep(Indeterminate<int>(4), 0, 2, 4, false, 0);
    assert Indeterminate<int>(4) + Indeterminate<int>(0) == Indeterminate<int>(4);
  }

  /** A `STACK_DECLARATION` of `common/stack.h` over items of type `T`. */
  class Stack<T> {
    var slots: seq<Option<T>>
    var size: nat
    var used: nat

    predicate Valid()
      reads this
    {
      |slots| == size && used <= size
    }

    /** The items in use, oldest first. */
    function Items(): (items: seq<Option<T>>)
      reads this
      requires Valid()
      ensures |items| == used
    {
      slots[..used]
    }

    /** `STACK_AT`: the item at index `i`. */
    function At(i: nat): (v: Option<T>)
      reads this
      requires Valid() && i < used
      ensures v == Items()[i]
    {
      slots[i]
    }

    /** `STACK_AT_R`: the item `i` places from the top. */
    function AtR(i: nat): (v: Option<T>)
      reads this
      requires Valid() && i < used
      ensures v == Items()[|Items()| - 1 - i]
    {
      slots[used - 1 - i]
    }

    /** `STACK_INIT`: an empty stack over an uninitialised allocation. */
    constructor (initialSize: nat)
      ensures Valid() && size == initialSize && used == 0 && Items() == []
      ensures slots == Indeterminate(initialSize)
    {
      slots := Indeterminate(initialSize);
      size := initialSize;
      used := 0;
    }

    /** `STACK_DEINIT`: the allocation is released; a second call changes
     * nothing. */
    method Deinit()
      modifies this
      ensures Valid() && size == 0 && used == 0 && slots == []
    {
      slots := [];
      size, used := 0, 0;
    }

    /** `STACK_PUSH`: a full stack grows by half, then the value goes on
     * top. */
    method Push(v: T)
      requires Valid() && size > 0
      modifies this
      ensures Valid() && Items() == old(Items()) + [Some(v)] && AtR(0) == Some(v)
      ensures size == if old(used) < old(size) then old(size) else Growth(old(size))
    {
      if used == size {
        GrowthGrows(size);
        slots := slots + Indeterminate(Growth(size) - size);
        size := Growth(size);
      }
      slots := slots[used := Some(v)];
      used := used + 1;
      assert Items() == old(Items()) + [Some(v)];
    }

    /** `STACK_RESERVE`: the capacity becomes at least `newSize`, exactly,
     * without the growth sequence; the items are kept. */
    method Reserve(newSize: nat)
      requires Valid()
      modifies this
      ensures Valid() && size == Max(old(size), newSize) && used == old(used)
      ensures slots == old(slots) + Indeterminate(size - old(size))
      ensures Items() == old(Items())
    {
      var s := Max(size, newSize);
      slots := slots + Indeterminate(s - size);
      size := s;
    }

    /** `STACK_RESIZE`: reserve the inflated size, fill (see
     * `ResizedSlots`; `zero` is the item whose bytes are all zero) and set
     * the count to `newSize`. As written the capacity follows the growth
     * sequence, which never leaves zero; corrected it follows
     * `CorrectedInflatedSize`. */
    method Resize(newSize: nat, asWritten: bool, zero: T)
      requires Valid() && (!asWritten || size > 0 || newSize <= size)
      modifies this
      ensures Valid() && used == newSize
      ensures asWritten ==> size == InflatedSize(old(size), newSize)
      ensures !asWritten ==> size == CorrectedInflatedSize(old(size), newSize)
      ensures slots == ResizedSlots(old(slots), old(used), newSize, size, asWritten, zero)
    {
      var target;
      if size == 0 && newSize > 0 {
        target := InflateSize(1, newSize);
      } else {
        target := InflateSize(size, newSize);
      }
      var oldUsed := used;
      Reserve(target);
      assert size == target;
      if !asWritten && oldUsed < newSize {
        slots := slots[..oldUsed] + Zeros(newSize - oldUsed, zero) + slots[newSize..];
      }
      used := newSize;
    }
  }

  /** A `STACK_DECLARATION` of `assembler/stack.h`: the same layout, a
   * capacity that doubles when full. */
  class AssemblerStack<T> {
    var slots: seq<Option<T>>
    var size: nat
    var used: nat

    predicate Valid()
      reads this
    {
      |slots| == size && used <= size
    }

    function Items(): (items: seq<Option<T>>)
      reads this
      requires Valid()
      ensures |items| == used
    {
      slots[..used]
    }

    /** `STACK_INIT`. */
    constructor (initialSize: nat)
      ensures Valid() && size == initialSize && used == 0 && Items() == []
      ensures slots == Indeterminate(initialSize)
    {
      slots := Indeterminate(initialSize);
      size := initialSize;
      used := 0;
    }

    /** `STACK_DEINIT`. */
    method Deinit()
      modifies this
      ensures Valid() && size == 0 && used == 0 && slots == []
    {
      slots := [];
      size, used := 0, 0;
    }

    /** `STACK_PUSH` with `STACK_INFLATE`: a full stack doubles, then the
     * value goes on top and earlier items stay as they were. */
    method Push(v: T)
      requires Valid() && size > 0
      modifies this
      ensures Valid() && Items() == old(Items()) + [Some(v)]
      ensures size == if old(used) < old(size) then old(size) else 2 * old(size)
    {
      if used == size {
        slots := slots + Indeterminate(size);
        size := 2 * size;
      }
      slots := slots[used := Some(v)];
      used := used + 1;
      assert Items() == old(Items()) + [Some(v)];
    }
  }
}
