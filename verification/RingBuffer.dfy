/** The lightweight ring buffer shared by an interrupt handler and the main loop. Only the updates of
    `Count` are atomic; every other access is a step that the other side can interleave with. */
module RingBuffer {
  import opened Arithmetic
  import opened ByteMemory

  /** The buffer's memory: In and Out may stand one past the end for the moment before they wrap. */
  datatype Cells = Cells(buf: seq<byte>, inp: nat, out: nat, count: nat) {
    predicate Shaped(n: nat) { 1 <= n <= 255 && |buf| == n && inp <= n && out <= n && count < 256 }

    function Store(b: byte): Cells { if inp < |buf| then this.(buf := buf[inp := b]) else this }

    function AdvanceIn(): Cells { this.(inp := inp + 1) }

    function WrapIn(): Cells { if inp == |buf| then this.(inp := 0) else this }

    /** Count is one byte wide. */
    function BumpCount(): Cells { this.(count := (count + 1) % 256) }

    function Load(): byte { if out < |buf| then buf[out] else 0 }

    function AdvanceOut(): Cells { this.(out := out + 1) }

    function WrapOut(): Cells { if out == |buf| then this.(out := 0) else this }

    function DropCount(): Cells { this.(count := (count + 255) % 256) }

    function Insert(b: byte): Cells { Store(b).AdvanceIn().WrapIn().BumpCount() }

    function Remove(): Cells { AdvanceOut().WrapOut().DropCount() }
  }

  // ---- Slots ----

  /** The slot of the k-th byte ever inserted. */
  function Slot(n: nat, k: nat): (s: nat)
    requires n > 0
    ensures s < n
  {
    k % n
  }

  lemma NextSlot(n: nat, k: nat)
    requires n > 0
    ensures Slot(n, k + 1) == if Slot(n, k) + 1 == n then 0 else Slot(n, k) + 1
  {
    var q, r := k / n, k % n;
    assert k == q * n + r;
    if r + 1 == n {
      assert k + 1 == (q + 1) * n;
      QuotientUnique(k + 1, q + 1, n, 0);
    } else {
      QuotientUnique(k + 1, q, n, r + 1);
    }
  }

  /** Fewer than n bytes apart means different slots. */
  lemma DistinctSlots(n: nat, j: nat, k: nat)
    requires 0 < n && j < k < j + n
    ensures Slot(n, j) != Slot(n, k)
  {
    var q, r := j / n, j % n;
    assert j == q * n + r;
    if r + (k - j) < n {
      QuotientUnique(k, q, n, r + (k - j));
    } else {
      assert k == (q + 1) * n + (r + (k - j) - n);
      QuotientUnique(k, q + 1, n, r + (k - j) - n);
    }
  }

  lemma FirstSlot(n: nat)
    requires n > 0
    ensures Slot(n, 0) == 0 && Slot(n, n) == 0
  {
    QuotientUnique(0, 0, n, 0);
    QuotientUnique(n, 1, n, 0);
  }

  // ---- Interleaved execution ----

  /** Where the one inserting context is: idle, sure that there is room, or part of the way through. */
  datatype Inserter = Idle | Checked(data: byte) | Stored | InAdvanced | InWrapped

  /** Where the one removing context is; `left` is what remains of the count it cached. */
  datatype Remover = Resting | Draining(left: nat) | Loaded(left: nat, data: byte)
                   | OutAdvanced(left: nat, data: byte) | OutWrapped(left: nat, data: byte)

  datatype Step = CheckFull(data: byte) | StoreByte | AdvanceIn | WrapIn | BumpCount
                | CacheCount | StopEarly | LoadByte | AdvanceOut | WrapOut | DropCount

  /** The buffer, both contexts, and the bytes stored and delivered so far. */
  datatype State = State(cells: Cells, ins: Inserter, rem: Remover, inserted: seq<byte>, removed: seq<byte>)

  /** One step of either context. A step that does not come next in its context does nothing. */
  function Do(s: State, step: Step): State {
    match step
    case CheckFull(b) => if s.ins.Idle? && s.cells.count != |s.cells.buf| then s.(ins := Checked(b)) else s
    case StoreByte =>
      if s.ins.Checked? then
        s.(cells := s.cells.Store(s.ins.data), ins := Stored, inserted := s.inserted + [s.ins.data])
      else s
    case AdvanceIn => if s.ins.Stored? then s.(cells := s.cells.AdvanceIn(), ins := InAdvanced) else s
    case WrapIn => if s.ins.InAdvanced? then s.(cells := s.cells.WrapIn(), ins := InWrapped) else s
    case BumpCount => if s.ins.InWrapped? then s.(cells := s.cells.BumpCount(), ins := Idle) else s
    case CacheCount => if s.rem.Resting? then s.(rem := Draining(s.cells.count)) else s
    case StopEarly => if s.rem.Draining? then s.(rem := Resting) else s
    case LoadByte =>
      if s.rem.Draining? && s.rem.left > 0 then s.(rem := Loaded(s.rem.left - 1, s.cells.Load())) else s
    case AdvanceOut =>
      if s.rem.Loaded? then s.(cells := s.cells.AdvanceOut(), rem := OutAdvanced(s.rem.left, s.rem.data)) else s
    case WrapOut =>
      if s.rem.OutAdvanced? then s.(cells := s.cells.WrapOut(), rem := OutWrapped(s.rem.left, s.rem.data)) else s
    case DropCount =>
      if s.rem.OutWrapped? then
        s.(cells := s.cells.DropCount(), rem := Draining(s.rem.left), removed := s.removed + [s.rem.data])
      else s
  }

  function Run(s: State, steps: seq<Step>): State {
    if steps == [] then s else Do(Run(s, steps[..|steps| - 1]), steps[|steps| - 1])
  }

  /** Zeroed memory after InitBuffer. */
  predicate Initial(n: nat, s: State) {
    && 1 <= n <= 255 && |s.cells.buf| == n && s.cells.inp == 0 && s.cells.out == 0 && s.cells.count == 0
    && s.ins.Idle? && s.rem.Resting? && s.inserted == [] && s.removed == []
  }

  /** Bytes stored whose insertion has not reached the count yet: none or one. */
  function Pending(s: State): nat { if s.ins.Idle? || s.ins.Checked? then 0 else 1 }

  ghost predicate InOk(n: nat, s: State)
    requires 0 < n
  {
    var k := |s.inserted|;
    match s.ins
    case Idle => s.cells.inp == Slot(n, k)
    case Checked(_) => s.cells.inp == Slot(n, k) && s.cells.count < n
    case Stored => k > 0 && s.cells.inp == Slot(n, k - 1)
    case InAdvanced => k > 0 && s.cells.inp == Slot(n, k - 1) + 1
    case InWrapped => k > 0 && s.cells.inp == Slot(n, k)
  }

  /** The byte taken out is the oldest one not delivered. */
  predicate Holds(s: State, b: byte) { |s.removed| < |s.inserted| && b == s.inserted[|s.removed|] }

  ghost predicate OutOk(n: nat, s: State)
    requires 0 < n
  {
    var k := |s.removed|;
    match s.rem
    case Resting => s.cells.out == Slot(n, k)
    case Draining(left) => s.cells.out == Slot(n, k) && left <= s.cells.count
    case Loaded(left, b) => s.cells.out == Slot(n, k) && left < s.cells.count && Holds(s, b)
    case OutAdvanced(left, b) => s.cells.out == Slot(n, k) + 1 && left < s.cells.count && Holds(s, b)
    case OutWrapped(left, b) => s.cells.out == Slot(n, k + 1) && left < s.cells.count && Holds(s, b)
  }

  /** Every byte that was stored and not delivered is still in its slot. */
  ghost predicate UnreadIntact(n: nat, s: State)
    requires 0 < n == |s.cells.buf|
  {
    forall k :: |s.removed| <= k < |s.inserted| ==> s.cells.buf[Slot(n, k)] == s.inserted[k]
  }

  ghost predicate Inv(n: nat, s: State) {
    && 1 <= n <= 255 && |s.cells.buf| == n
    && |s.removed| + s.cells.count + Pending(s) == |s.inserted|
    && s.cells.count + Pending(s) <= n
    && s.removed <= s.inserted
    && UnreadIntact(n, s)
    && (s.rem.Loaded? || s.rem.OutAdvanced? || s.rem.OutWrapped? ==> s.cells.count > 0)
    && InOk(n, s) && OutOk(n, s)
  }

  lemma StoreStep(n: nat, s: State)
    requires Inv(n, s) && s.ins.Checked?
    ensures Inv(n, Do(s, StoreByte))
  {
    var k := |s.inserted|;
    var t := Do(s, StoreByte);
    forall j | |s.removed| <= j < k
      ensures t.cells.buf[Slot(n, j)] == t.inserted[j]
    {
      DistinctSlots(n, j, k);
    }
  }

  lemma InserterStep(n: nat, s: State, step: Step)
    requires Inv(n, s) && (step.StoreByte? || step.AdvanceIn? || step.WrapIn? || step.BumpCount? || step.CheckFull?)
    ensures Inv(n, Do(s, step))
  {
    hide Slot;
    if step.StoreByte? {
      if s.ins.Checked? {
        StoreStep(n, s);
      }
    } else if |s.inserted| > 0 {
      NextSlot(n, |s.inserted| - 1);
      if s.ins.InWrapped? {
        OneMore(s.cells.count);
      }
    }
  }

  lemma RemoverStep(n: nat, s: State, step: Step)
    requires Inv(n, s)
    requires step.CacheCount? || step.StopEarly? || step.LoadByte? || step.AdvanceOut? || step.WrapOut? ||
    step.DropCount?
    ensures Inv(n, Do(s, step))
  {
    hide Slot;
    NextSlot(n, |s.removed|);
    if s.rem.OutWrapped? {
      OneLess(s.cells.count);
    }
  }

  /** Every interleaving keeps the invariant. */
  lemma {:induction false} EveryInterleaving(n: nat, s: State, steps: seq<Step>)
    requires Initial(n, s)
    ensures Inv(n, Run(s, steps))
  {
    if steps == [] {
      FirstSlot(n);
    } else {
      var prefix, step := steps[..|steps| - 1], steps[|steps| - 1];
      EveryInterleaving(n, s, prefix);
      var t := Run(s, prefix);
      if step.StoreByte? || step.AdvanceIn? || step.WrapIn? || step.BumpCount? || step.CheckFull? {
        InserterStep(n, t, step);
      } else {
        RemoverStep(n, t, step);
      }
    }
  }

  /** Under every interleaving the delivered bytes are a prefix of the stored ones, every stored byte not
      yet delivered is still in its slot, and the one-byte count stays between 0 and the capacity. */
  lemma FirstInFirstOut(n: nat, s: State, steps: seq<Step>)
    requires Initial(n, s)
    ensures var t := Run(s, steps);
            && t.removed <= t.inserted
            && |t.inserted| - |t.removed| <= n
            && |t.cells.buf| == n && UnreadIntact(n, t)
            && t.cells.count <= n && |t.removed| + t.cells.count + Pending(t) == |t.inserted|
  {
    EveryInterleaving(n, s, steps);
  }

  /** Within every interleaving, an increment of the count never wraps and a decrement never borrows. */
  lemma CountNeverWraps(n: nat, s: State, steps: seq<Step>)
    requires Initial(n, s)
    ensures var t := Run(s, steps);
            && (t.ins.InWrapped? ==> Do(t, BumpCount).cells.count == t.cells.count + 1)
            && (t.rem.OutWrapped? ==> Do(t, DropCount).cells.count == t.cells.count - 1)
  {
    EveryInterleaving(n, s, steps);
    CountInBounds(n, Run(s, steps));
  }

  lemma CountInBounds(n: nat, t: State)
    requires Inv(n, t)
    ensures t.ins.InWrapped? ==> Do(t, BumpCount).cells.count == t.cells.count + 1
    ensures t.rem.OutWrapped? ==> Do(t, DropCount).cells.count == t.cells.count - 1
  {
    hide Slot, UnreadIntact;
    if t.ins.InWrapped? {
      OneMore(t.cells.count);
    }
    if t.rem.OutWrapped? {
      OneLess(t.cells.count);
    }
  }

  lemma OneMore(count: nat)
    requires count < 255
    ensures (count + 1) % 256 == count + 1
  {
  }

  lemma OneLess(count: nat)
    requires 0 < count < 256
    ensures (count + 255) % 256 == count - 1
  {
  }

  /** The four steps of one removal. */
  function RemoveOne(s: State): State { Do(Do(Do(Do(s, LoadByte), AdvanceOut), WrapOut), DropCount) }

  function RemoveMany(s: State, k: nat): State
    decreases k
  {
    if k == 0 then s else RemoveMany(RemoveOne(s), k - 1)
  }

  lemma {:induction false} RemovesAll(n: nat, s: State, k: nat)
    requires Inv(n, s) && s.rem.Draining? && s.rem.left == k
    ensures var t := RemoveMany(s, k);
            && Inv(n, t) && t.rem == Draining(0) && t.inserted == s.inserted
            && |t.removed| == |s.removed| + k
    decreases k
  {
    if k > 0 {
      RemovesOne(n, s);
      RemovesAll(n, RemoveOne(s), k - 1);
    }
  }

  lemma RemovesOne(n: nat, s: State)
    requires Inv(n, s) && s.rem.Draining? && s.rem.left > 0
    ensures var t := RemoveOne(s);
            && Inv(n, t) && t.rem == Draining(s.rem.left - 1) && t.inserted == s.inserted
            && |t.removed| == |s.removed| + 1
  {
    var s1 := Do(s, LoadByte);
    RemoverStep(n, s, LoadByte);
    assert s1.rem.Loaded? && s1.rem.left == s.rem.left - 1 && s1.inserted == s.inserted && s1.removed == s.removed;
    DeliversLoaded(n, s1);
  }

  lemma DeliversLoaded(n: nat, s: State)
    requires Inv(n, s) && s.rem.Loaded?
    ensures var t := Do(Do(Do(s, AdvanceOut), WrapOut), DropCount);
            && Inv(n, t) && t.rem == Draining(s.rem.left) && t.inserted == s.inserted
            && |t.removed| == |s.removed| + 1
  {
    hide Inv;
    var s1 := Do(s, AdvanceOut);
    RemoverStep(n, s, AdvanceOut);
    var s2 := Do(s1, WrapOut);
    RemoverStep(n, s1, WrapOut);
    RemoverStep(n, s2, DropCount);
  }

  /** Nothing is lost: from any interleaving, caching the count and removing that many bytes delivers
      everything whose insertion was complete. */
  lemma DrainDeliversEverything(n: nat, s: State, steps: seq<Step>)
    requires Initial(n, s) && Run(s, steps).rem.Resting?
    ensures var t := Run(s, steps);
            var all := RemoveMany(Do(t, CacheCount), t.cells.count).removed;
            all <= t.inserted && |all| + Pending(t) == |t.inserted|
  {
    EveryInterleaving(n, s, steps);
    var t := Run(s, steps);
    RemoverStep(n, t, CacheCount);
    RemovesAll(n, Do(t, CacheCount), t.cells.count);
  }

  /** The receive interrupt inserts without testing for room. On a full buffer that overwrites the oldest
      unread byte, and with 255 slots the count wraps to zero. */
  lemma UnguardedInsertOnFullBuffer(n: nat, s: State, b: byte)
    requires Inv(n, s) && s.ins.Idle? && s.cells.count == n
    ensures |s.removed| < |s.inserted| && s.cells.Store(b).buf[Slot(n, |s.removed|)] == b
    ensures UnreadIntact(n, s.(cells := s.cells.Store(b))) <==> b == s.inserted[|s.removed|]
    ensures n == 255 ==> s.cells.Insert(b).count == 0
  {
    var j, k := |s.removed|, |s.inserted|;
    assert k == j + n;
    SlotRepeats(n, j);
    forall i | j < i < k
      ensures Slot(n, i) != Slot(n, j)
    {
      DistinctSlots(n, j, i);
    }
    assert s.cells.Store(b).buf == s.cells.buf[Slot(n, j) := b];
  }

  lemma SlotRepeats(n: nat, j: nat)
    requires n > 0
    ensures Slot(n, j + n) == Slot(n, j)
  {
    var q, r := j / n, j % n;
    assert j + n == (q + 1) * n + r;
    QuotientUnique(j + n, q + 1, n, r);
  }

  // ---- The buffer as an object ----

  /** `count` bytes from slot `out` on, wrapping at the end of the buffer. */
  function Unread(buf: seq<byte>, out: nat, count: nat): (s: seq<byte>)
    requires 0 < |buf|
    ensures |s| == count
    decreases count
  {
    if count == 0 then [] else [buf[Slot(|buf|, out)]] + Unread(buf, out + 1, count - 1)
  }

  lemma {:induction false} UnreadAppend(buf: seq<byte>, out: nat, count: nat, b: byte)
    requires count < |buf|
    ensures Unread(buf[Slot(|buf|, out + count) := b], out, count + 1) == Unread(buf, out, count) + [b]
    decreases count
  {
    if count > 0 {
      DistinctSlots(|buf|, out, out + count);
      assert out + count == out + 1 + (count - 1);
      UnreadAppend(buf, out + 1, count - 1, b);
    }
  }

  lemma {:induction false} UnreadRepeats(buf: seq<byte>, out: nat, count: nat)
    requires 0 < |buf|
    ensures Unread(buf, out + |buf|, count) == Unread(buf, out, count)
    decreases count
  {
    if count > 0 {
      SlotRepeats(|buf|, out);
      assert out + |buf| + 1 == out + 1 + |buf|;
      UnreadRepeats(buf, out + 1, count - 1);
    }
  }

  lemma UnreadTail(buf: seq<byte>, out: nat, count: nat)
    requires out < |buf| && 0 < count
    ensures var next := if out + 1 == |buf| then 0 else out + 1;
            && Unread(buf, out, count) == [buf[out]] + Unread(buf, next, count - 1)
            && Slot(|buf|, next + (count - 1)) == Slot(|buf|, out + count)
  {
    QuotientUnique(out, 0, |buf|, out);
    if out + 1 == |buf| {
      UnreadRepeats(buf, 0, count - 1);
      SlotRepeats(|buf|, count - 1);
      assert out + count == count - 1 + |buf|;
    }
  }

  /** The pointers of a full buffer are equal. */
  lemma FullSlot(n: nat, out: nat)
    requires out < n
    ensures Slot(n, out) == out && Slot(n, out + n) == out
  {
    QuotientUnique(out, 0, n, out);
    SlotRepeats(n, out);
  }

  class RingBuff {
    var buffer: array<byte>
    var inp: nat
    var out: nat
    var count: nat

    ghost function Memory(): Cells
      reads this, buffer
    {
      Cells(buffer[..], inp, out, count)
    }

    ghost predicate Valid()
      reads this, buffer
    {
      && 1 <= buffer.Length <= 255 && inp < buffer.Length && out < buffer.Length && count <= buffer.Length
      && inp == Slot(buffer.Length, out + count)
    }

    /** The unread bytes, oldest first. */
    ghost function Contents(): (s: seq<byte>)
      requires 1 <= buffer.Length
      reads this, buffer
      ensures |s| == count
    {
      Unread(buffer[..], out, count)
    }

    constructor (size: nat)
      requires 1 <= size <= 255
      ensures Valid() && Contents() == [] && buffer.Length == size && fresh(buffer)
    {
      buffer := new byte[size];
      inp, out, count := 0, 0, 0;
      new;
      FirstSlot(size);
    }

    /** Resets both pointers but not the count: the buffer is empty afterwards only if it was before. */
    method InitBuffer()
      requires Valid()
      modifies this
      ensures buffer == old(buffer) && Memory() == old(Memory()).(inp := 0, out := 0)
      ensures Valid() <==> old(count) == 0 || old(count) == buffer.Length
      ensures Contents() == [] <==> old(count) == 0
    {
      inp, out := 0, 0;
      FirstSlot(buffer.Length);
      if 0 < count < buffer.Length {
        DistinctSlots(buffer.Length, 0, count);
      }
    }

    method GetCount() returns (c: nat)
      requires Valid()
      ensures c == |Contents()|
    {
      c := count;
    }

    method IsFull() returns (full: bool)
      requires Valid()
      ensures full <==> |Contents()| == buffer.Length
    {
      var c := GetCount();
      full := c == buffer.Length;
    }

    method IsEmpty() returns (empty: bool)
      requires Valid()
      ensures empty <==> Contents() == []
    {
      var c := GetCount();
      empty := c == 0;
    }

    /** Appends a byte, in the four steps of the interleaved model. Room is not tested for. */
    method Insert(data: byte)
      requires Valid()
      modifies this, buffer
      ensures buffer == old(buffer) && Memory() == old(Memory()).Insert(data)
      ensures Valid() <==> old(|Contents()|) < buffer.Length
      ensures old(|Contents()|) < buffer.Length ==> Contents() == old(Contents()) + [data]
    {
      hide Slot, Unread;
      if count < buffer.Length {
        UnreadAppend(buffer[..], out, count, data);
        NextSlot(buffer.Length, out + count);
      } else {
        FullSlot(buffer.Length, out);
      }
      buffer[inp] := data;
      inp := inp + 1;
      if inp == buffer.Length {
        inp := 0;
      }
      count := (count + 1) % 256;
    }

    /** Takes the oldest byte, in the four steps of the interleaved model. */
    method Remove() returns (data: byte)
      requires Valid() && Contents() != []
      modifies this
      ensures Valid() && buffer == old(buffer) && old(Contents()) == [data] + Contents()
      ensures data == old(Memory()).Load() && Memory() == old(Memory()).Remove()
    {
      UnreadTail(buffer[..], out, count);
      OneLess(count);
      data := buffer[out];
      out := out + 1;
      if out == buffer.Length {
        out := 0;
      }
      count := (count + 255) % 256;
    }
  }
}
