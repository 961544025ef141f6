/**
  The table of JavaScript values that WebAssembly code refers to by number. Free slots form a list
  threaded through the table itself.
 */
module HandleSlab {
  import opened Sums

  /** A JavaScript value; numbers double as links of the free list. */
  datatype JsValue = Undefined | Null | Boolean(value: bool) | Number(n: nat) | Object(id: nat)

  const RESERVED: nat := 36

  datatype Slab = Slab(heap: seq<JsValue>, next: nat)

  /** The first 36 slots never change: 33 times `undefined`, then `null`, `true` and `false`. */
  function Constant(h: nat): JsValue {
    if h == 33 then Null else if h == 34 then Boolean(true) else if h == 35 then Boolean(false) else Undefined
  }

  function Initial(): Slab {
    Slab(seq(RESERVED, h requires 0 <= h => Constant(h)), RESERVED)
  }

  /** The reserved values, slot by slot. */
  lemma InitialIs()
    ensures Initial().heap == seq(32, _ => Undefined) + [Undefined, Null, Boolean(true), Boolean(false)]
    ensures Initial().next == 36 == |Initial().heap|
  {}

  /** The head of the free list is a free slot or the end of the table. */
  predicate Chained(s: Slab) {
    s.next <= |s.heap| && (s.next < |s.heap| ==> s.heap[s.next].Number?)
  }

  function Get(s: Slab, h: nat): JsValue {
    if h < |s.heap| then s.heap[h] else Undefined
  }

  function Add(s: Slab, v: JsValue): (Slab, nat)
    requires Chained(s)
  {
    var heap := if s.next == |s.heap| then s.heap + [Number(|s.heap| + 1)] else s.heap;
    (Slab(heap[s.next := v], heap[s.next].n), s.next)
  }

  function Drop(s: Slab, h: nat): Slab
    requires h < RESERVED || h < |s.heap|
  {
    if h < RESERVED then s else Slab(s.heap[h := Number(s.next)], h)
  }

  // ---- the table as a finite map ----

  /** Where the `i`th link of the free list leads. */
  ghost function Link(s: Slab, free: seq<nat>, i: nat): nat
    requires i <= |free|
  {
    if i < |free| then free[i] else |s.heap|
  }

  /** The free list runs through distinct slots and ends at the length of the table. */
  ghost predicate FreeList(s: Slab, free: seq<nat>) {
    && s.next == Link(s, free, 0)
    && (forall i :: 0 <= i < |free| ==>
          RESERVED <= free[i] < |s.heap| && s.heap[free[i]] == Number(Link(s, free, i + 1)))
    && (forall i, j :: 0 <= i < j < |free| ==> free[i] != free[j])
  }

  /**
    `live` are the handles in use and their values. Every slot from 36 on is either live or free, and the
    counts add up.
   */
  ghost predicate Represents(s: Slab, live: map<nat, JsValue>, free: seq<nat>) {
    && |s.heap| == RESERVED + |live| + |free|
    && (forall h :: 0 <= h < RESERVED ==> s.heap[h] == Constant(h))
    && FreeList(s, free)
    && (forall h :: h in live ==> RESERVED <= h < |s.heap| && s.heap[h] == live[h])
    && (forall h :: RESERVED <= h < |s.heap| ==> (h in live <==> h !in free))
  }

  lemma InitialRepresents()
    ensures Represents(Initial(), map[], [])
  {}

  ghost function FreeAfterAdd(free: seq<nat>): seq<nat> {
    if free == [] then [] else free[1..]
  }

  lemma AddGrows(s: Slab, live: map<nat, JsValue>, v: JsValue)
    requires Represents(s, live, [])
    ensures Chained(s)
    ensures var (s', h) := Add(s, v);
      h == |s.heap| && s'.heap == s.heap + [v] && Represents(s', live[h := v], [])
  {}

  lemma FreeListPop(s: Slab, s': Slab, free: seq<nat>)
    requires FreeList(s, free) && free != []
    requires |s'.heap| == |s.heap| && (forall h :: 0 <= h < |s.heap| && h != free[0] ==> s'.heap[h] == s.heap[h])
    requires s'.next == Link(s, free, 1)
    ensures FreeList(s', free[1..]) && free[0] !in free[1..]
  {}

  lemma AddReuses(s: Slab, live: map<nat, JsValue>, free: seq<nat>, v: JsValue)
    requires Represents(s, live, free) && free != []
    ensures Chained(s)
    ensures var (s', h) := Add(s, v);
      h == free[0] && s'.heap == s.heap[h := v] && Represents(s', live[h := v], free[1..])
  {
    hide FreeList;
    FreeListHead(s, free);
    var (s', h) := Add(s, v);
    FreeListPop(s, s', free);
    forall k: nat ensures k in free <==> k == h || k in free[1..] {
      InCons(free, k);
    }
  }

  lemma FreeListHead(s: Slab, free: seq<nat>)
    requires FreeList(s, free) && free != []
    ensures Chained(s) && s.next == free[0] && RESERVED <= s.next < |s.heap| &&
      s.heap[s.next] == Number(Link(s, free, 1))
  {}

  lemma InCons(free: seq<nat>, k: nat)
    requires free != []
    ensures k in free <==> k == free[0] || k in free[1..]
  {}

  /** A new handle was not in use, and from then on stands for its value; nothing else changes. */
  lemma AddRefines(s: Slab, live: map<nat, JsValue>, free: seq<nat>, v: JsValue)
    requires Represents(s, live, free)
    ensures Chained(s)
    ensures var (s', h) := Add(s, v);
      && h !in live && h >= RESERVED
      && Represents(s', live[h := v], FreeAfterAdd(free))
      && |s'.heap| == |s.heap| + if free == [] then 1 else 0
  {
    if free == [] {
      AddGrows(s, live, v);
    } else {
      AddReuses(s, live, free, v);
      assert free[0] in free;
    }
  }

  lemma GetRefines(s: Slab, live: map<nat, JsValue>, free: seq<nat>, h: nat)
    requires Represents(s, live, free) && (h in live || h < RESERVED)
    ensures Get(s, h) == if h in live then live[h] else Constant(h)
  {}

  /** Dropping a handle frees exactly that handle. */
  lemma DropRefines(s: Slab, live: map<nat, JsValue>, free: seq<nat>, h: nat)
    requires Represents(s, live, free) && h in live
    ensures Represents(Drop(s, h), live - {h}, [h] + free)
  {}

  // ---- whole runs, and how large the table gets ----

  datatype Op = AddOp(v: JsValue) | GetOp(h: nat) | TakeOp(h: nat)

  /** The table with what a user of it knows: the live handles, and the most ever live at once. */
  datatype State = State(slab: Slab, live: map<nat, JsValue>, peak: nat)

  ghost predicate Legal(st: State, op: Op) {
    && Chained(st.slab)
    && (op.AddOp? || op.h in st.live || op.h < RESERVED)
    && (op.TakeOp? ==> op.h < RESERVED || op.h < |st.slab.heap|)
  }

  ghost function Step(st: State, op: Op): State
    requires Legal(st, op)
  {
    match op
    case AddOp(v) =>
      var (slab, h) := Add(st.slab, v);
      var live := st.live[h := v];
      State(slab, live, if |live| > st.peak then |live| else st.peak)
    case GetOp(_) => st
    case TakeOp(h) => State(Drop(st.slab, h), st.live - {h}, st.peak)
  }

  /** `sts` is a run of operations on live handles, starting from the initial table. */
  ghost predicate IsRun(sts: seq<State>, ops: seq<Op>) {
    && |sts| == |ops| + 1 && sts[0] == State(Initial(), map[], 0)
    && forall k :: 0 <= k < |ops| ==>
         (ops[k].AddOp? || ops[k].h in sts[k].live || ops[k].h < RESERVED) &&
         (Legal(sts[k], ops[k]) ==> sts[k + 1] == Step(sts[k], ops[k]))
  }

  ghost predicate Good(st: State, free: seq<nat>) {
    Represents(st.slab, st.live, free) && |st.slab.heap| == RESERVED + st.peak
  }

  lemma StepStaysGood(st: State, free: seq<nat>, op: Op) returns (free': seq<nat>)
    requires Good(st, free) && (op.AddOp? || op.h in st.live || op.h < RESERVED)
    ensures Legal(st, op) && Good(Step(st, op), free')
  {
    free' := free;
    if op.AddOp? {
      AddRefines(st.slab, st.live, free, op.v);
      free' := FreeAfterAdd(free);
    } else if op.TakeOp? && op.h in st.live {
      DropRefines(st.slab, st.live, free, op.h);
      free' := [op.h] + free;
    } else {
      assert op.h !in st.live ==> st.live - {op.h} == st.live;
    }
  }

  /**
    At every point of every run the table is the map of live handles, the free list holds the other slots,
    and the table is exactly as long as the most handles ever live at once require.
   */
  lemma {:induction false} RunRefinesMap(sts: seq<State>, ops: seq<Op>, k: nat) returns (free: seq<nat>)
    requires IsRun(sts, ops) && k <= |ops|
    ensures Represents(sts[k].slab, sts[k].live, free)
    ensures |sts[k].slab.heap| == RESERVED + sts[k].peak
    ensures k < |ops| ==> Legal(sts[k], ops[k]) && sts[k + 1] == Step(sts[k], ops[k])
  {
    if k == 0 {
      InitialRepresents();
      free := [];
    } else {
      free := RunRefinesMap(sts, ops, k - 1);
      free := StepStaysGood(sts[k - 1], free, ops[k - 1]);
    }
    if k < |ops| {
      var _ := StepStaysGood(sts[k], free, ops[k]);
    }
  }

  lemma StepPeak(st: State, op: Op)
    requires Legal(st, op) && |st.live| <= st.peak
    ensures var after := Step(st, op);
      |after.live| <= after.peak && st.peak <= after.peak && (after.peak == st.peak || after.peak == |after.live|)
  {
    if op.TakeOp? {
      assert Step(st, op).live.Keys <= st.live.Keys;
      SubsetSize(Step(st, op).live.Keys, st.live.Keys);
    }
  }

  lemma RunStarts(sts: seq<State>, ops: seq<Op>)
    requires IsRun(sts, ops)
    ensures |sts| == |ops| + 1 && sts[0].live == map[] && sts[0].peak == 0
  {}

  /** `p` is the largest number of handles live together in one of the first `k + 1` states. */
  ghost predicate LargestUpTo(sts: seq<State>, k: nat, p: nat)
    requires k < |sts|
  {
    && (forall j :: 0 <= j <= k ==> |sts[j].live| <= p)
    && (exists j :: 0 <= j <= k && |sts[j].live| == p)
  }

  lemma LargestNext(sts: seq<State>, k: nat, p: nat, q: nat)
    requires k + 1 < |sts| && LargestUpTo(sts, k, p) && p <= q && |sts[k + 1].live| <= q
    requires q == p || q == |sts[k + 1].live|
    ensures LargestUpTo(sts, k + 1, q)
  {
    if q == p {
      var j :| 0 <= j <= k && |sts[j].live| == p;
      assert |sts[j].live| == q;
    }
  }

  /** The recorded peak is the largest number of handles that were ever live together. */
  lemma {:induction false} PeakIsLargest(sts: seq<State>, ops: seq<Op>, k: nat)
    requires IsRun(sts, ops) && k <= |ops|
    ensures k < |sts| && LargestUpTo(sts, k, sts[k].peak) && |sts[k].live| <= sts[k].peak
  {
    RunStarts(sts, ops);
    hide IsRun, Legal, Step, Represents, LargestUpTo;
    if k == 0 {
      LargestFirst(sts);
    } else {
      PeakIsLargest(sts, ops, k - 1);
      var _ := RunRefinesMap(sts, ops, k - 1);
      StepPeak(sts[k - 1], ops[k - 1]);
      LargestNext(sts, k - 1, sts[k - 1].peak, sts[k].peak);
    }
  }

  lemma LargestFirst(sts: seq<State>)
    requires sts != [] && sts[0].live == map[]
    ensures LargestUpTo(sts, 0, 0) && |sts[0].live| == 0
  {
    assert |sts[0].live| == 0;
  }

  // ---- arrays of values ----

  /** The table together with the live handles and free list it stands for. */
  datatype Table = Table(slab: Slab, live: map<nat, JsValue>, free: seq<nat>)

  ghost predicate Ok(t: Table) {
    Represents(t.slab, t.live, t.free)
  }

  ghost function AddOne(t: Table, v: JsValue): (Table, nat)
    requires Ok(t)
  {
    AddRefines(t.slab, t.live, t.free, v);
    var (slab, h) := Add(t.slab, v);
    (Table(slab, t.live[h := v], FreeAfterAdd(t.free)), h)
  }

  /** Add the values of an array one after the other. */
  ghost function AddAll(t: Table, values: seq<JsValue>): (r: (Table, seq<nat>))
    requires Ok(t)
    ensures Ok(r.0) && |r.1| == |values|
    decreases |values|
  {
    if values == [] then (t, []) else
    var (before, handles) := AddAll(t, values[..|values| - 1]);
    AddRefines(before.slab, before.live, before.free, values[|values| - 1]);
    var (after, h) := AddOne(before, values[|values| - 1]);
    (after, handles + [h])
  }

  ghost predicate AllLive(t: Table, handles: seq<nat>) {
    && (forall i :: 0 <= i < |handles| ==> handles[i] in t.live)
    && (forall i, j :: 0 <= i < j < |handles| ==> handles[i] != handles[j])
  }

  ghost function TakeOne(t: Table, h: nat): (r: Table)
    requires Ok(t) && h in t.live
    ensures Ok(r)
  {
    DropRefines(t.slab, t.live, t.free, h);
    Table(Drop(t.slab, h), t.live - {h}, [h] + t.free)
  }

  ghost function HandleSet(handles: seq<nat>): set<nat> {
    set h | h in handles
  }

  lemma AllLiveInit(t: Table, handles: seq<nat>)
    requires AllLive(t, handles) && handles != []
    ensures AllLive(t, handles[..|handles| - 1])
    ensures handles[|handles| - 1] in t.live - HandleSet(handles[..|handles| - 1])
    ensures t.live - HandleSet(handles) == t.live - HandleSet(handles[..|handles| - 1]) - {handles[|handles| - 1]}
  {}

  /** Take the handles of an array one after the other. */
  ghost function TakeAll(t: Table, handles: seq<nat>): (r: (Table, seq<JsValue>))
    requires Ok(t) && AllLive(t, handles)
    ensures Ok(r.0) && r.0.live == t.live - HandleSet(handles)
    decreases |handles|
  {
    hide Ok;
    if handles == [] then (t, []) else
    AllLiveInit(t, handles);
    hide AllLive;
    var (before, values) := TakeAll(t, handles[..|handles| - 1]);
    (TakeOne(before, handles[|handles| - 1]), values + [Get(before.slab, handles[|handles| - 1])])
  }

  /** Taking yields the values the handles stand for. */
  lemma {:induction false} TakeAllRefines(t: Table, handles: seq<nat>)
    requires Ok(t) && AllLive(t, handles)
    ensures |TakeAll(t, handles).1| == |handles|
    ensures forall i :: 0 <= i < |handles| ==> handles[i] in t.live && TakeAll(t, handles).1[i] == t.live[handles[i]]
    decreases |handles|
  {
    hide Ok, Represents, AllLive;
    if handles != [] {
      var init, last := handles[..|handles| - 1], handles[|handles| - 1];
      AllLiveInit(t, handles);
      TakeAllRefines(t, init);
      var (before, values) := TakeAll(t, init);
      GetOne(before, last);
      assert TakeAll(t, handles).1 == values + [t.live[last]];
    }
  }

  lemma GetOne(t: Table, h: nat)
    requires Ok(t) && h in t.live
    ensures Get(t.slab, h) == t.live[h]
  {}

  /** The live handles after adding `values` under `handles`. */
  ghost predicate Added(t: Table, t': Table, values: seq<JsValue>, handles: seq<nat>) {
    && |handles| == |values| && AllLive(t', handles)
    && (forall i :: 0 <= i < |handles| ==> handles[i] !in t.live && t'.live[handles[i]] == values[i])
    && (forall h :: h in t'.live <==> h in t.live || h in handles)
    && (forall h :: h in t.live ==> t'.live[h] == t.live[h])
  }

  lemma AddedNone(t: Table)
    ensures Added(t, t, [], [])
  {}

  lemma AddedMore(t: Table, t1: Table, t2: Table, values: seq<JsValue>, handles: seq<nat>, v: JsValue, h: nat)
    requires Added(t, t1, values, handles) && h !in t1.live && t2.live == t1.live[h := v]
    ensures Added(t, t2, values + [v], handles + [h])
  {}

  /** The new handles are distinct, were not in use, and stand for the values; the others are untouched. */
  lemma {:induction false} AddAllRefines(t: Table, values: seq<JsValue>)
    requires Ok(t)
    ensures Added(t, AddAll(t, values).0, values, AddAll(t, values).1)
    decreases |values|
  {
    hide Ok, Represents, Added;
    if values == [] {
      AddedNone(t);
    } else {
      var init, last := values[..|values| - 1], values[|values| - 1];
      AddAllRefines(t, init);
      var (before, handles) := AddAll(t, init);
      var (after, h) := AddOne(before, last);
      AddOneFresh(before, last);
      AddedMore(t, before, after, init, handles, last, h);
      assert init + [last] == values;
    }
  }

  lemma AddOneFresh(t: Table, v: JsValue)
    requires Ok(t)
    ensures AddOne(t, v).1 !in t.live && AddOne(t, v).0.live == t.live[AddOne(t, v).1 := v]
  {}

  /** An array passed over and read back is the same array, and every handle is as it was before. */
  lemma ArrayRoundTrip(t: Table, values: seq<JsValue>)
    requires Ok(t)
    ensures var (t', handles) := AddAll(t, values);
      AllLive(t', handles) && TakeAll(t', handles).1 == values && TakeAll(t', handles).0.live == t.live
  {
    hide Ok;
    AddAllRefines(t, values);
    var (t', handles) := AddAll(t, values);
    TakeAllRefines(t', handles);
    assert t'.live - HandleSet(handles) == t.live;
  }

  // ---- the module's state ----

  const U32_SIZE: nat := 0x1_0000_0000

  lemma AddAllNext(t: Table, values: seq<JsValue>, i: nat)
    requires Ok(t) && i < |values|
    ensures var (before, handles) := AddAll(t, values[..i]);
      AddAll(t, values[..i + 1]) == (AddOne(before, values[i]).0, handles + [AddOne(before, values[i]).1])
  {
    hide Ok, AddOne;
    assert values[..i + 1][..i] == values[..i];
  }

  lemma WordsNext(words: seq<nat>, base: nat, handles: seq<nat>, idx: nat)
    requires base + |handles| < |words|
    ensures (words[..base] + handles + words[base + |handles|..])[base + |handles| := idx] ==
            words[..base] + (handles + [idx]) + words[base + |handles| + 1..]
  {}

  lemma TakeAllNext(t: Table, handles: seq<nat>, i: nat)
    requires Ok(t) && AllLive(t, handles) && i < |handles|
    ensures AllLive(t, handles[..i]) && AllLive(t, handles[..i + 1])
    ensures var (before, values) := TakeAll(t, handles[..i]);
      && handles[i] in before.live
      && TakeAll(t, handles[..i + 1]) == (TakeOne(before, handles[i]), values + [before.live[handles[i]]])
  {
    hide Ok, TakeOne;
    AllLiveInit(t, handles[..i + 1]);
    assert handles[..i + 1][..i] == handles[..i];
    GetOne(TakeAll(t, handles[..i]).0, handles[i]);
  }

  class Glue {
    var heap: seq<JsValue>
    var heapNext: nat
    var vectorLen: nat
    var words: seq<nat>
    ghost var live: map<nat, JsValue>
    ghost var free: seq<nat>

    ghost function View(): Table
      reads this
    {
      Table(Slab(heap, heapNext), live, free)
    }

    ghost predicate Valid()
      reads this
    {
      Ok(View())
    }

    constructor (memory: seq<nat>)
      ensures Valid() && live == map[] && words == memory
      ensures heap == seq(32, _ => Undefined) + [Undefined, Null, Boolean(true), Boolean(false)]
    {
      heap, heapNext, vectorLen, words := Initial().heap, RESERVED, 0, memory;
      live, free := map[], [];
      new;
      InitialRepresents();
    }

    method AddHeapObject(obj: JsValue) returns (idx: nat)
      requires Valid()
      modifies this`heap, this`heapNext, this`live, this`free
      ensures Valid()
      ensures (View(), idx) == AddOne(old(View()), obj)
      ensures idx !in old(live) && idx >= RESERVED && live == old(live)[idx := obj]
      ensures |heap| <= old(|heap|) + 1 && idx < |heap|
    {
      AddRefines(Slab(heap, heapNext), live, free, obj);
      if heapNext == |heap| {
        heap := heap + [Number(|heap| + 1)];
      }
      idx := heapNext;
      heapNext := heap[idx].n;
      heap := heap[idx := obj];
      live, free := live[idx := obj], FreeAfterAdd(free);
    }

    method GetObject(idx: nat) returns (obj: JsValue)
      requires Valid() && (idx in live || idx < RESERVED)
      ensures obj == if idx in live then live[idx] else Constant(idx)
      ensures idx < 33 ==> obj == Undefined
      ensures idx == 33 ==> obj == Null
      ensures (idx == 34 ==> obj == Boolean(true)) && (idx == 35 ==> obj == Boolean(false))
    {
      obj := heap[idx];
    }

    method TakeObject(idx: nat) returns (obj: JsValue)
      requires Valid() && (idx in live || idx < RESERVED)
      modifies this`heap, this`heapNext, this`live, this`free
      ensures Valid() && live == old(live) - {idx} && |heap| == old(|heap|)
      ensures obj == if idx in old(live) then old(live)[idx] else Constant(idx)
      ensures idx < 33 ==> obj == Undefined
      ensures idx == 33 ==> obj == Null
      ensures (idx == 34 ==> obj == Boolean(true)) && (idx == 35 ==> obj == Boolean(false))
      ensures idx < RESERVED ==> View() == old(View())
      ensures idx in old(live) ==> View() == TakeOne(old(View()), idx)
    {
      hide FreeList;
      obj := heap[idx];
      if idx < RESERVED {
        assert live - {idx} == live;
        return;
      }
      DropRefines(Slab(heap, heapNext), live, free, idx);
      heap := heap[idx := Number(heapNext)];
      heapNext := idx;
      live, free := live - {idx}, [idx] + free;
    }

    /** Write the handles of new values for an array into the words at `ptr`, which `malloc` provided. */
    method PassArrayJsValue(array_: seq<JsValue>, ptr: nat)
      requires Valid() && |heap| + |array_| < U32_SIZE
      requires ptr % 4 == 0 && ptr / 4 + |array_| <= |words|
      modifies this
      ensures Valid() && vectorLen == |array_|
      ensures View() == AddAll(old(View()), array_).0
      ensures words == old(words)[..ptr / 4] + AddAll(old(View()), array_).1 + old(words)[ptr / 4 + |array_|..]
    {
      hide Ok, AddOne;
      var base := ptr / 4;
      ghost var handles: seq<nat> := [];
      for i := 0 to |array_|
        invariant Valid() && |heap| <= old(|heap|) + i && |handles| == i
        invariant (View(), handles) == AddAll(old(View()), array_[..i])
        invariant words == old(words)[..base] + handles + old(words)[base + i..]
      {
        AddAllNext(old(View()), array_, i);
        var idx := AddHeapObject(array_[i]);
        WordsNext(old(words), base, handles, idx);
        words := words[base + i := idx % U32_SIZE];
        handles := handles + [idx];
      }
      assert array_[..|array_|] == array_;
      vectorLen := |array_|;
    }

    /** Read the handles at `ptr` back, taking each value out of the table. */
    method GetArrayJsValue(ptr: nat, len: nat) returns (result: seq<JsValue>)
      requires ptr / 4 + len <= |words|
      requires Valid() && AllLive(View(), words[ptr / 4..ptr / 4 + len])
      modifies this`heap, this`heapNext, this`live, this`free
      ensures Valid()
      ensures (View(), result) == TakeAll(old(View()), words[ptr / 4..ptr / 4 + len])
    {
      hide Ok, TakeOne;
      var slice := words[ptr / 4..ptr / 4 + len];
      result := [];
      for i := 0 to |slice|
        invariant Valid() && AllLive(old(View()), slice[..i])
        invariant (View(), result) == TakeAll(old(View()), slice[..i])
      {
        TakeAllNext(old(View()), slice, i);
        var obj := TakeObject(slice[i]);
        result := result + [obj];
      }
      assert slice[..|slice|] == slice;
    }
  }
}
