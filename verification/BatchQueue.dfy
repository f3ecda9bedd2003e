/** work_queue_dedicated/code.c: the work handler that fills 14 slots and a list, and flushes on the next call. */
module BatchQueue {
  import opened Basics
  import opened KernelList

  const SLOTS: nat := 14

  /** What one call of the handler changes, apart from pointers. */
  datatype Batch = Batch(
    moving: nat,        // moving_val
    log: seq<int>,      // the values printed so far
    allocs: nat,        // successful kmallocs
    detached: nat)      // nodes taken off the list; none is ever freed

  const EMPTY: Batch := Batch(0, [], 0, 0)

  /** One call of work_handler; ok says whether kmalloc succeeds if it is called. */
  function Call(b: Batch, ok: bool): Batch {
    if b.moving < SLOTS then
      if ok then b.(moving := b.moving + 1, allocs := b.allocs + 1) else b
    else
      b.(moving := 0, log := b.log + Down(SLOTS, 1), detached := b.detached + SLOTS)
  }

  // ---------------------------------------------------------------- any run of calls

  function Calls(oks: seq<bool>): Batch {
    if oks == [] then EMPTY else Call(Calls(oks[..|oks| - 1]), oks[|oks| - 1])
  }

  /** How many of the calls ended in a failed kmalloc. */
  function Failed(oks: seq<bool>): nat {
    if oks == [] then 0
    else
      var before := oks[..|oks| - 1];
      Failed(before) + if Calls(before).moving < SLOTS && !oks[|oks| - 1] then 1 else 0
  }

  function Repeat(s: seq<int>, n: nat): seq<int> {
    if n == 0 then [] else Repeat(s, n - 1) + s
  }

  /** The j-th value of the k-th copy is the j-th value. */
  lemma {:induction false} RepeatAt(s: seq<int>, n: nat, k: nat, j: nat)
    requires k < n && j < |s|
    ensures |Repeat(s, n)| == n * |s| && k * |s| + j < n * |s| && Repeat(s, n)[k * |s| + j] == s[j]
  {
    RepeatLength(s, n - 1);
    assert n * |s| == (n - 1) * |s| + |s|;
    if k < n - 1 {
      RepeatAt(s, n - 1, k, j);
    }
  }

  lemma {:induction false} RepeatLength(s: seq<int>, n: nat)
    ensures |Repeat(s, n)| == n * |s|
  {
    if n > 0 {
      RepeatLength(s, n - 1);
      assert n * |s| == (n - 1) * |s| + |s|;
    }
  }

  /** k nodes are on the list: those allocated and not detached. */
  predicate Holding(b: Batch, k: nat) {
    b.moving == k && b.allocs == b.detached + k
  }

  /** k batches have been flushed: each printed 13 down to 0 and detached 14 nodes. */
  predicate Flushed(b: Batch, k: nat) {
    b.log == Repeat(Down(SLOTS, 1), k) && b.detached == SLOTS * k
  }

  /** How many of the calls flushed a batch. */
  function Flushes(oks: seq<bool>): nat {
    if oks == [] then 0
    else
      var before := oks[..|oks| - 1];
      Flushes(before) + if Calls(before).moving < SLOTS then 0 else 1
  }

  /** Every call fails, adds a node or flushes fourteen. */
  lemma {:induction false} CallsAdded(oks: seq<bool>)
    ensures |oks| == Failed(oks) + 15 * Flushes(oks) + Calls(oks).moving
    ensures Calls(oks).moving <= SLOTS && Holding(Calls(oks), Calls(oks).moving)
  {
    if oks != [] {
      CallsAdded(oks[..|oks| - 1]);
    }
  }

  lemma {:induction false} CallsFlushed(oks: seq<bool>)
    ensures Flushed(Calls(oks), Flushes(oks))
  {
    if oks != [] {
      CallsFlushed(oks[..|oks| - 1]);
    }
  }

  lemma DivMod(n: nat, q: nat, m: nat)
    requires n == 15 * q + m && m < 15
    ensures n / 15 == q && n % 15 == m
  {
  }

  lemma CallsHold(oks: seq<bool>)
    ensures Failed(oks) <= |oks| && Holding(Calls(oks), (|oks| - Failed(oks)) % 15)
    ensures Flushes(oks) == (|oks| - Failed(oks)) / 15
  {
    CallsAdded(oks);
    DivMod(|oks| - Failed(oks), Flushes(oks), Calls(oks).moving);
  }

  /**
    After any run of calls, with failed allocations anywhere: let n be the number of calls that did not
    fail.  Then moving_val is n mod 15, the log is 13 down to 0 printed n div 15 times, and of the
    14 * (n div 15) + n mod 15 nodes allocated, exactly 14 * (n div 15) have been detached.
    */
  lemma BatchesOfFifteen(oks: seq<bool>)
    ensures Failed(oks) <= |oks|
    ensures Holding(Calls(oks), (|oks| - Failed(oks)) % 15) && Flushed(Calls(oks), (|oks| - Failed(oks)) / 15)
  {
    CallsHold(oks);
    CallsFlushed(oks);
  }

  lemma {:induction false} AllGranted(oks: seq<bool>)
    requires forall i :: 0 <= i < |oks| ==> oks[i]
    ensures Failed(oks) == 0
  {
    if oks != [] {
      AllGranted(oks[..|oks| - 1]);
    }
  }

  /** The same when no allocation fails: everything depends on the number of calls alone. */
  lemma CleanRun(oks: seq<bool>)
    requires forall i :: 0 <= i < |oks| ==> oks[i]
    ensures Holding(Calls(oks), |oks| % 15) && Flushed(Calls(oks), |oks| / 15)
  {
    AllGranted(oks);
    BatchesOfFifteen(oks);
  }

  // ---------------------------------------------------------------- the pointers

  class Driver {
    var movingVal: int
    const f: array<ListNode?>
    const list: List
    var log: seq<int>
    ghost var allocs: nat
    ghost var detached: seq<ListNode>

    /** The slots below moving_val hold, last filled first, exactly the nodes of the list, with their numbers. */
    ghost predicate Filled(m: int)
      reads this, f, list, list.nodes
    {
      && 0 <= m <= SLOTS == f.Length && |list.nodes| == m
      && forall j :: 0 <= j < m ==> list.nodes[j] == f[m - 1 - j] && list.nodes[j].data == m - 1 - j
    }

    ghost predicate Valid()
      reads this, f, list, list.head, list.nodes
    {
      list.Valid() && Filled(movingVal)
    }

    ghost function View(): Batch
      reads this, f, list, list.head, list.nodes
      requires Valid()
    {
      Batch(movingVal, log, allocs, |detached|)
    }

    constructor ()
      ensures Valid() && View() == EMPTY && fresh(f) && fresh(list) && fresh(list.head)
    {
      movingVal, log, allocs, detached := 0, [], 0, [];
      f := new ListNode?[SLOTS](_ => null);
      list := new List();
    }

    /** list_del on the last of the m nodes that are left of q */
    method DeleteLast(x: ListNode, ghost q: seq<ListNode>, ghost m: nat)
      requires list.Valid() && 0 < m <= |q| && list.nodes == q[..m] && x == q[m - 1]
      modifies list, list.Cells()
      ensures list.Valid() && list.nodes == q[..m - 1]
    {
      assert x == list.nodes[m - 1];
      LastIndex(list.nodes);
      list.Del(x);
    }

    /** The deletion loop of the flush: every list_del acts on a node that is there, and nothing is left. */
    method DeleteAll()
      requires list.Valid() && Filled(SLOTS)
      modifies this`detached, list, list.Cells()
      ensures list.Valid() && list.nodes == []
      ensures detached == old(detached) + Reverse(old(list.nodes))
    {
      ghost var q, d := list.nodes, detached;
      assert q[..SLOTS] == q;
      for i := 0 to SLOTS
        invariant list.Valid() && list.nodes == q[..SLOTS - i]
        invariant detached == d + Reverse(q[SLOTS - i..])
      {
        var x := f[i];
        assert q[SLOTS - 1 - i] == x;
        DeleteLast(x, q, SLOTS - i);
        NextReversed(q, SLOTS - i);
        detached := detached + [x];
      }
      assert q[0..] == q;
    }

    /** work_handler while there is a free slot */
    method Fill(ok: bool)
      requires Valid() && movingVal < SLOTS
      modifies this, f, list, list.Cells()
      ensures Valid() && View() == Call(old(View()), ok) && detached == old(detached) && log == old(log)
      ensures ok ==> fresh(list.nodes[0]) && list.nodes[1..] == old(list.nodes)
      ensures !ok ==> list.nodes == old(list.nodes) && f[movingVal] == null
    {
      if !ok {
        f[movingVal] := null;
        return;
      }
      var node := new ListNode(movingVal);
      f[movingVal] := node;
      allocs := allocs + 1;
      list.Add(node);
      movingVal := movingVal + 1;
    }

    /** work_handler when all slots are taken */
    method Flush()
      requires Valid() && movingVal == SLOTS
      modifies this, list, list.Cells()
      ensures Valid() && View() == Call(old(View()), true) == Call(old(View()), false)
      ensures list.nodes == [] && detached == old(detached) + Reverse(old(list.nodes))
      ensures log == old(log) + Down(SLOTS, 1)
    {
      movingVal := 0;
      var shown := list.Read();
      assert shown == Down(SLOTS, 1);
      log := log + shown;
      ReverseAt(list.nodes);
      DeleteAll();
    }

    /** work_handler */
    method Handle(ok: bool)
      requires Valid()
      modifies this, f, list, list.Cells()
      ensures Valid() && View() == Call(old(View()), ok)
      ensures old(movingVal) < SLOTS ==> detached == old(detached) && log == old(log)
      ensures old(movingVal) == SLOTS ==> movingVal == 0 && log == old(log) + Down(SLOTS, 1)
      ensures old(movingVal) < SLOTS && ok ==> fresh(list.nodes[0]) && list.nodes[1..] == old(list.nodes)
      ensures old(movingVal) < SLOTS && !ok ==> list.nodes == old(list.nodes) && f[movingVal] == null
      ensures old(movingVal) == SLOTS ==> list.nodes == [] && detached == old(detached) + Reverse(old(list.nodes))
    {
      if movingVal < SLOTS {
        Fill(ok);
      } else {
        Flush();
      }
    }

    /** Handler runs one after the other, as the single-threaded work queue makes them, on a new driver. */
    method HandleAll(oks: seq<bool>)
      requires Valid() && View() == EMPTY
      modifies this, f, list, list.head
      ensures Valid() && View() == Calls(oks)
      ensures |list.nodes| == (|oks| - Failed(oks)) % 15
      ensures list.nodes == [] <==> (|oks| - Failed(oks)) % 15 == 0
    {
      for i := 0 to |oks|
        invariant Valid() && View() == Calls(oks[..i])
        invariant forall x :: x in list.nodes ==> fresh(x)
      {
        assert oks[..i + 1][..i] == oks[..i];
        Handle(oks[i]);
        assert list.nodes != [] ==> list.nodes == [list.nodes[0]] + list.nodes[1..];
      }
      assert oks[..|oks|] == oks;
      CallsHold(oks);
    }
  }

  lemma NextReversed(q: seq<ListNode>, m: nat)
    requires 0 < m <= |q|
    ensures Reverse(q[m - 1..]) == Reverse(q[m..]) + [q[m - 1]]
  {
    assert q[m - 1..][1..] == q[m..];
  }

  lemma LastIndex(q: seq<ListNode>)
    requires Distinct(q) && q != []
    ensures Index(q, q[|q| - 1]) == |q| - 1 && Drop(q, |q| - 1) == q[..|q| - 1]
  {
    assert Differ(q, Index(q, q[|q| - 1]), |q| - 1);
  }
}
