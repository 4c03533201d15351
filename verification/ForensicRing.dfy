/** The message ring of contrib/mod_log_forensic.c: the last N log messages are kept, and a
    flush writes them out oldest first.
*/
module ForensicRing {
  import opened Basics

  /** The slots in the order a flush visits them: from the write index round to just before it. */
  function Cyclic<T>(msgs: seq<Option<T>>, idx: nat): (r: seq<Option<T>>)
    requires idx < |msgs|
    ensures |r| == |msgs|
  {
    msgs[idx..] + msgs[..idx]
  }

  function Nones<T>(n: nat): (r: seq<Option<T>>)
    ensures |r| == n
    ensures forall i :: 0 <= i < n ==> r[i] == None
  {
    seq(n, _ => None)
  }

  function Somes<T>(s: seq<T>): (r: seq<Option<T>>)
    ensures |r| == |s|
    ensures forall i :: 0 <= i < |s| ==> r[i] == Some(s[i])
  {
    seq(|s|, i requires 0 <= i < |s| => Some(s[i]))
  }

  /** The ring holds exactly the buffered messages: read from the write index, empty slots
      first and then the messages in arrival order. */
  ghost predicate HoldsInOrder<T>(msgs: seq<Option<T>>, idx: nat, buffered: seq<T>) {
    && idx < |msgs|
    && |buffered| <= |msgs|
    && Cyclic(msgs, idx) == Nones(|msgs| - |buffered|) + Somes(buffered)
  }

  /** Buffering one more message in a ring of n: the oldest goes if it is full. */
  function Push<T>(n: nat, buffered: seq<T>, m: T): (r: seq<T>)
    requires n > 0
    ensures |r| > 0
  {
    if |buffered| < n then buffered + [m] else buffered[|buffered| - n + 1..] + [m]
  }

  function AllButNewest<T>(s: seq<T>): seq<T> {
    if s == [] then [] else s[..|s| - 1]
  }

  function OnlyNewest<T>(s: seq<T>): seq<T> {
    if s == [] then [] else s[|s| - 1..]
  }

  class Ring<T(0)> {
    const msgs: array<Option<T>>
    var idx: nat
    ghost var buffered: seq<T>

    ghost predicate Valid()
      reads this, msgs
    {
      HoldsInOrder(msgs[..], idx, buffered)
    }

    constructor (n: nat)
      requires n > 0
      ensures Valid() && fresh(msgs) && msgs.Length == n && buffered == []
    {
      msgs := new Option<T>[n](_ => None);
      idx, buffered := 0, [];
      new;
      assert Cyclic(msgs[..], 0) == Nones(n) + Somes([]);
    }

    /** forensic_add_msg: overwrites the slot at the write index and moves on, wrapping. */
    method Add(m: T)
      requires Valid()
      modifies this, msgs
      ensures Valid() && buffered == Push(msgs.Length, old(buffered), m)
    {
      AddStep(msgs[..], idx, buffered, m);
      msgs[idx] := Some(m);
      assert msgs[..] == old(msgs[..])[old(idx) := Some(m)];
      idx := idx + 1;
      if idx == msgs.Length {
        idx := 0;
      }
      buffered := Push(msgs.Length, buffered, m);
    }

    /** The loop of forensic_write_msgs: visits the slots from the write index up to, and not
        including, the one before it, writing and emptying those that hold a message. */
    method Sweep() returns (written: seq<T>)
      requires idx < msgs.Length
      modifies msgs
      ensures var c := old(Cyclic(msgs[..], idx));
              && written == Present(c[..|c| - 1])
              && Cyclic(msgs[..], idx) == Nones(|c| - 1) + c[|c| - 1..]
    {
      hide Present, Cyclic;
      written := [];
      var end := if idx == 0 then msgs.Length - 1 else idx - 1;
      var i := idx;
      ghost var c := Cyclic(msgs[..], idx);
      ghost var k := 0;
      assert c == Nones(0) + c[0..];
      PresentOfNone(c);
      while i != end
        invariant 0 <= k < msgs.Length && i == Wrapped(msgs.Length, idx, k)
        invariant Cyclic(msgs[..], idx) == Nones(k) + c[k..]
        invariant written == Present(c[..k])
        decreases msgs.Length - k
      {
        FlushStep(msgs[..], idx, c, k);
        PresentStep(c, k);
        if msgs[i].Some? {
          written := written + [msgs[i].value];
          ghost var was := msgs[..];
          msgs[i] := None;
          assert msgs[..] == was[i := None];
        }
        i := i + 1;
        if i == msgs.Length {
          i := 0;
        }
        k := k + 1;
      }
    }

    /** forensic_write_msgs: everything buffered is written except the newest message, which
        stays buffered. */
    method Flush() returns (written: seq<T>)
      requires Valid()
      modifies this`buffered, msgs
      ensures Valid()
      ensures written == AllButNewest(old(buffered)) && buffered == OnlyNewest(old(buffered))
    {
      hide Present, Cyclic;
      ghost var c := Cyclic(msgs[..], idx);
      written := Sweep();
      FlushResult(c, msgs[..], idx, buffered);
      buffered := OnlyNewest(buffered);
    }
  }

  /** Slot number k in visiting order. */
  function Wrapped(n: nat, idx: nat, k: nat): (i: nat)
    requires idx < n && k < n
    ensures i < n
  {
    if idx + k < n then idx + k else idx + k - n
  }

  lemma CyclicAt<T>(msgs: seq<Option<T>>, idx: nat, k: nat)
    requires idx < |msgs| && k < |msgs|
    ensures Cyclic(msgs, idx)[k] == msgs[Wrapped(|msgs|, idx, k)]
  {
  }

  /** The messages among a sequence of slots. */
  function Present<T>(slots: seq<Option<T>>): seq<T> {
    if slots == [] then [] else
      Present(slots[..|slots| - 1]) + (if slots[|slots| - 1].Some? then [slots[|slots| - 1].value] else [])
  }

  lemma PresentOfNone<T>(slots: seq<Option<T>>)
    ensures Present(slots[..0]) == []
  {
  }

  lemma PresentStep<T>(slots: seq<Option<T>>, k: nat)
    requires k < |slots|
    ensures Present(slots[..k + 1]) == Present(slots[..k]) + (if slots[k].Some? then [slots[k].value] else [])
  {
    assert slots[..k + 1][..k] == slots[..k];
  }

  lemma {:induction false} PresentOfPadded<T>(k: nat, s: seq<T>)
    ensures Present(Nones(k) + Somes(s)) == s
    decreases k + |s|
  {
    var slots: seq<Option<T>> := Nones(k) + Somes(s);
    if s != [] {
      assert slots[..|slots| - 1] == Nones(k) + Somes(s[..|s| - 1]);
      PresentOfPadded(k, s[..|s| - 1]);
    } else if k > 0 {
      assert slots[..|slots| - 1] == Nones(k - 1) + Somes(s);
      PresentOfPadded(k - 1, s);
    }
  }

  lemma AddStep<T>(msgs: seq<Option<T>>, idx: nat, buffered: seq<T>, m: T)
    requires HoldsInOrder(msgs, idx, buffered)
    ensures HoldsInOrder(msgs[idx := Some(m)], if idx + 1 == |msgs| then 0 else idx + 1,
                         Push(|msgs|, buffered, m))
  {
    var msgs', idx' := msgs[idx := Some(m)], if idx + 1 == |msgs| then 0 else idx + 1;
    var c, c' := Cyclic(msgs, idx), Cyclic(msgs', idx');
    assert c' == c[1..] + [Some(m)];
  }

  /** Emptying the slot visited k-th, when the k before it are already empty. */
  lemma FlushStep<T>(msgs: seq<Option<T>>, idx: nat, c: seq<Option<T>>, k: nat)
    requires idx < |msgs| && |c| == |msgs| && k < |msgs|
    requires Cyclic(msgs, idx) == Nones(k) + c[k..]
    ensures msgs[Wrapped(|msgs|, idx, k)] == c[k]
    ensures Cyclic(msgs[Wrapped(|msgs|, idx, k) := None], idx) == Nones(k + 1) + c[k + 1..]
    ensures c[k] == None ==> Cyclic(msgs, idx) == Nones(k + 1) + c[k + 1..]
  {
    CyclicAt(msgs, idx, k);
    var i := Wrapped(|msgs|, idx, k);
    assert Cyclic(msgs[i := None], idx) == Cyclic(msgs, idx)[k := None];
  }

  lemma FlushResult<T>(c: seq<Option<T>>, after: seq<Option<T>>, idx: nat, buffered: seq<T>)
    requires idx < |after| == |c| && |buffered| <= |c|
    requires c == Nones(|c| - |buffered|) + Somes(buffered)
    requires Cyclic(after, idx) == Nones(|c| - 1) + c[|c| - 1..]
    ensures Present(c[..|c| - 1]) == AllButNewest(buffered)
    ensures HoldsInOrder(after, idx, OnlyNewest(buffered))
  {
    hide Present, Cyclic;
    var n, b := |c|, |buffered|;
    if b == 0 {
      assert c[..n - 1] == Nones(n - 1) + Somes([]);
      PresentOfPadded<T>(n - 1, []);
      assert c[n - 1..] == [None];
      assert Cyclic(after, idx) == Nones(n) + Somes([]);
    } else {
      var rest := buffered[..b - 1];
      assert c[..n - 1] == Nones(n - b) + Somes(rest);
      PresentOfPadded(n - b, rest);
      assert c[n - 1..] == Somes(buffered[b - 1..]);
    }
  }

  // ----- Whole runs -----

  datatype Op<T> = Message(m: T) | FlushNow

  /** A run in terms of arrival numbers: which messages arrived, the first one still
      buffered (all later ones are), and the numbers written so far, in writing order. */
  datatype History<T> = History(arrived: seq<T>, oldest: nat, written: seq<nat>)

  function Numbers(from: nat, to: nat): (r: seq<nat>)
    ensures |r| == if from <= to then to - from else 0
    ensures forall i :: 0 <= i < |r| ==> r[i] == from + i
  {
    if from <= to then seq(to - from, i requires 0 <= i => from + i) else []
  }

  function After<T>(n: nat, ops: seq<Op<T>>): (h: History<T>)
    requires n > 0
    ensures h.oldest <= |h.arrived|
    ensures |h.arrived| - h.oldest <= n
    decreases |ops|
  {
    if ops == [] then History([], 0, []) else
      var h := After(n, ops[..|ops| - 1]);
      match ops[|ops| - 1]
      case Message(m) =>
        History(h.arrived + [m], if |h.arrived| - h.oldest < n then h.oldest else h.oldest + 1, h.written)
      case FlushNow =>
        var newest := |h.arrived| - 1;
        if h.oldest == |h.arrived| then h
        else History(h.arrived, newest, h.written + Numbers(h.oldest, newest))
  }

  /** The messages with the given arrival numbers. */
  function Texts<T>(arrived: seq<T>, numbers: seq<nat>): (r: seq<T>)
    requires forall i :: 0 <= i < |numbers| ==> numbers[i] < |arrived|
    ensures |r| == |numbers|
    ensures forall i :: 0 <= i < |r| ==> r[i] == arrived[numbers[i]]
  {
    seq(|numbers|, i requires 0 <= i < |numbers| => arrived[numbers[i]])
  }

  predicate InOrder<T>(h: History<T>) {
    && (forall i, j :: 0 <= i < j < |h.written| ==> h.written[i] < h.written[j])
    && (forall i :: 0 <= i < |h.written| ==> h.written[i] < h.oldest)
  }

  /** The whole log is in arrival order, so no message is written twice; and what is still
      buffered came after everything written. */
  lemma {:induction false} WrittenInArrivalOrder<T>(n: nat, ops: seq<Op<T>>)
    requires n > 0
    ensures InOrder(After(n, ops))
    decreases |ops|
  {
    if ops != [] {
      var h, h' := After(n, ops[..|ops| - 1]), After(n, ops);
      WrittenInArrivalOrder(n, ops[..|ops| - 1]);
      if ops[|ops| - 1].FlushNow? && h.oldest < |h.arrived| {
        var flushed := Numbers(h.oldest, |h.arrived| - 1);
        assert h'.written == h.written + flushed && h'.oldest == |h.arrived| - 1;
        assert forall i :: 0 <= i < |flushed| ==> h.oldest <= flushed[i] < h'.oldest;
      } else {
        assert h'.written == h.written && h.oldest <= h'.oldest;
      }
    }
  }

  function Arrivals<T>(ops: seq<Op<T>>): nat {
    if ops == [] then 0 else Arrivals(ops[..|ops| - 1]) + (if ops[|ops| - 1].Message? then 1 else 0)
  }

  lemma {:induction false} ArrivedCount<T>(n: nat, ops: seq<Op<T>>)
    requires n > 0
    ensures |After(n, ops).arrived| == Arrivals(ops)
    decreases |ops|
  {
    if ops != [] {
      ArrivedCount(n, ops[..|ops| - 1]);
    }
  }

  /** A flush comes while message i is among the n latest and not the latest. */
  ghost predicate FlushedWhileHeld<T>(n: nat, ops: seq<Op<T>>, i: nat) {
    exists t :: 0 <= t < |ops| && ops[t].FlushNow? && i + 1 < Arrivals(ops[..t]) <= i + n
  }

  /** Exactly which messages a run writes: those that some flush finds with at least one and
      at most n - 1 newer messages behind them. */
  lemma {:induction false} WrittenExactly<T>(n: nat, ops: seq<Op<T>>, i: nat)
    requires n > 0
    ensures i in After(n, ops).written <==> FlushedWhileHeld(n, ops, i)
    ensures i < After(n, ops).oldest && i + n >= |After(n, ops).arrived| ==> i in After(n, ops).written
    decreases |ops|
  {
    if ops != [] {
      var k := |ops| - 1;
      var ops' := ops[..k];
      WrittenExactly(n, ops', i);
      ArrivedCount(n, ops');
      var h := After(n, ops');
      FlushedStep(n, ops, i);
      if ops[k].FlushNow? && h.oldest < |h.arrived| {
        var flushed := Numbers(h.oldest, |h.arrived| - 1);
        assert i in flushed <==> h.oldest <= i < |h.arrived| - 1 by {
          if h.oldest <= i < |h.arrived| - 1 {
            assert flushed[i - h.oldest] == i;
          }
        }
      }
    }
  }

  lemma FlushedStep<T>(n: nat, ops: seq<Op<T>>, i: nat)
    requires ops != []
    ensures var k := |ops| - 1;
            FlushedWhileHeld(n, ops, i) <==>
              FlushedWhileHeld(n, ops[..k], i) || (ops[k].FlushNow? && i + 1 < Arrivals(ops[..k]) <= i + n)
  {
    var k := |ops| - 1;
    assert forall t :: 0 <= t < k ==> ops[..k][..t] == ops[..t];
    if FlushedWhileHeld(n, ops, i) {
      var t :| 0 <= t < |ops| && ops[t].FlushNow? && i + 1 < Arrivals(ops[..t]) <= i + n;
      if t < k {
        assert ops[..k][t].FlushNow?;
      }
    }
    if FlushedWhileHeld(n, ops[..k], i) {
      var t :| 0 <= t < k && ops[..k][t].FlushNow? && i + 1 < Arrivals(ops[..k][..t]) <= i + n;
      assert ops[t].FlushNow?;
    }
  }

  /** Running the ring: the log it writes and the messages it holds are those of the history. */
  method Run<T(0)>(n: nat, ops: seq<Op<T>>) returns (log: seq<T>, ring: Ring<T>)
    requires n > 0
    ensures ring.Valid() && ring.msgs.Length == n
    ensures Recorded(After(n, ops), log, ring.buffered)
  {
    log := [];
    ring := new Ring<T>(n);
    for k := 0 to |ops|
      invariant fresh(ring) && fresh(ring.msgs) && ring.Valid() && ring.msgs.Length == n
      invariant Recorded(After(n, ops[..k]), log, ring.buffered)
    {
      assert ops[..k + 1][..k] == ops[..k];
      ghost var b := ring.buffered;
      match ops[k] {
        case Message(m) =>
          ring.Add(m);
          RecordMessage(n, ops[..k + 1], log, b);
        case FlushNow =>
          var w := ring.Flush();
          RecordFlush(n, ops[..k + 1], log, b);
          log := log + w;
      }
    }
    assert ops[..|ops|] == ops;
  }

  /** The log and the buffer of a run are those of its history. */
  ghost predicate Recorded<T>(h: History<T>, log: seq<T>, buffered: seq<T>) {
    && h.oldest <= |h.arrived|
    && (forall i :: 0 <= i < |h.written| ==> h.written[i] < |h.arrived|)
    && log == Texts(h.arrived, h.written)
    && buffered == h.arrived[h.oldest..]
  }

  lemma RecordMessage<T>(n: nat, ops: seq<Op<T>>, log: seq<T>, buffered: seq<T>)
    requires n > 0 && ops != [] && ops[|ops| - 1].Message?
    requires Recorded(After(n, ops[..|ops| - 1]), log, buffered)
    ensures Recorded(After(n, ops), log, Push(n, buffered, ops[|ops| - 1].m))
  {
    var h, h' := After(n, ops[..|ops| - 1]), After(n, ops);
    assert h'.arrived[h'.oldest..] == Push(n, buffered, ops[|ops| - 1].m);
    assert Texts(h'.arrived, h'.written) == log;
  }

  lemma RecordFlush<T>(n: nat, ops: seq<Op<T>>, log: seq<T>, buffered: seq<T>)
    requires n > 0 && ops != [] && ops[|ops| - 1].FlushNow?
    requires Recorded(After(n, ops[..|ops| - 1]), log, buffered)
    ensures Recorded(After(n, ops), log + AllButNewest(buffered), OnlyNewest(buffered))
  {
    var h, h' := After(n, ops[..|ops| - 1]), After(n, ops);
    if buffered != [] {
      var flushed := Numbers(h.oldest, |h.arrived| - 1);
      assert h' == History(h.arrived, |h.arrived| - 1, h.written + flushed);
      TextsOfNumbers(h.arrived, h.oldest, |h.arrived| - 1);
      TextsConcat(h.arrived, h.written, flushed);
    }
  }

  lemma TextsOfNumbers<T>(arrived: seq<T>, from: nat, to: nat)
    requires from <= to <= |arrived|
    ensures forall i :: 0 <= i < |Numbers(from, to)| ==> Numbers(from, to)[i] < |arrived|
    ensures Texts(arrived, Numbers(from, to)) == arrived[from..to]
  {
  }

  lemma TextsConcat<T>(arrived: seq<T>, a: seq<nat>, b: seq<nat>)
    requires forall i :: 0 <= i < |a| ==> a[i] < |arrived|
    requires forall i :: 0 <= i < |b| ==> b[i] < |arrived|
    ensures forall i :: 0 <= i < |a + b| ==> (a + b)[i] < |arrived|
    ensures Texts(arrived, a + b) == Texts(arrived, a) + Texts(arrived, b)
  {
  }
}
