/** The ban-event list of contrib/mod_ban.c: per source, a counter of events inside a time
    window, and the threshold at which an event turns into a ban.
*/
module BanEvents {
  import opened Basics
  import opened SlotSearch
  import BanList

  /** A slot; kind 0 means free. */
  datatype Slot = Slot(kind: nat, sid: nat, src: string, max: nat, curr: nat,
                       start: int, window: int, expires: int)

  const FREE: Slot := Slot(0, 0, "", 0, 0, 0, 0, 0)

  datatype Events = Events(slots: seq<Slot>, len: nat, cursor: nat)

  /** The configured rule an event is handled under. The configuration refuses a zero
      window and a zero expiry. */
  datatype Rule = Rule(max: nat, window: nat, expires: nat, message: string)

  predicate RuleOk(r: Rule) {
    r.window > 0 && r.expires > 0
  }

  predicate IsUsed(e: Slot) {
    e.kind != 0
  }

  function UsedBits(slots: seq<Slot>): (used: seq<bool>) {
    Marks(slots, IsUsed)
  }

  predicate Wf(ev: Events) {
    && |ev.slots| > 0
    && ev.len == Count(UsedBits(ev.slots))
    && ev.cursor <= |ev.slots|
    && forall i :: 0 <= i < |ev.slots| && ev.slots[i].kind == 0 ==> ev.slots[i] == FREE
  }

  predicate IsFor(e: Slot, kind: nat, sid: nat, src: string) {
    e.kind == kind && e.sid == sid && e.src == src
  }

  predicate Distinct(slots: seq<Slot>) {
    forall i, j :: 0 <= i < j < |slots| && slots[i].kind != 0 && slots[j].kind != 0 ==>
      !IsFor(slots[j], slots[i].kind, slots[i].sid, slots[i].src)
  }

  /** The first slot for the given source, or the number of slots. */
  function Find(slots: seq<Slot>, kind: nat, sid: nat, src: string): (i: nat)
    ensures i <= |slots|
    ensures i < |slots| ==> IsFor(slots[i], kind, sid, src)
    ensures forall j :: 0 <= j < i ==> !IsFor(slots[j], kind, sid, src)
  {
    if slots == [] || IsFor(slots[0], kind, sid, src) then 0
    else
      var i := Find(slots[1..], kind, sid, src);
      assert forall j :: 0 <= j < |slots| - 1 ==> slots[1..][j] == slots[j + 1];
      assert forall j :: 0 < j < i + 1 ==> slots[j] == slots[1..][j - 1];
      i + 1
  }

  predicate Stale(e: Slot, now: int) {
    e.kind != 0 && e.expires != 0 && !(e.start + e.window > now)
  }

  /** Removal by a source clears the first slot for it; without one, every slot of the kind and
      server. */
  function Removed(slots: seq<Slot>, kind: nat, sid: nat, src: Option<string>): (r: seq<Slot>)
    ensures |r| == |slots|
  {
    match src
    case Some(text) =>
      var i := Find(slots, kind, sid, text);
      if i < |slots| then slots[i := FREE] else slots
    case None =>
      seq(|slots|, i requires 0 <= i < |slots| =>
        if slots[i].kind == kind && slots[i].sid == sid then FREE else slots[i])
  }

  /** The expiry scan over the first n slots: each stale slot is removed by its own source, which
      clears the first slot that has it. */
  function ExpireScan(slots: seq<Slot>, now: int, n: nat): (r: seq<Slot>)
    requires n <= |slots|
    ensures |r| == |slots|
  {
    if n == 0 then slots else
      var cur := ExpireScan(slots, now, n - 1);
      var e := cur[n - 1];
      if Stale(e, now) then Removed(cur, e.kind, e.sid, Some(e.src)) else cur
  }

  function Expired(ev: Events, now: int): Events {
    var slots := ExpireScan(ev.slots, now, |ev.slots|);
    Events(slots, Count(UsedBits(slots)), ev.cursor)
  }

  /** A new slot: the count is whatever the slot held, which is zero because freed slots are
      zeroed. */
  function NewSlot(slot: Slot, kind: nat, sid: nat, src: string, rule: Rule, now: int): Slot {
    Slot(kind, sid, BanList.Clip(src), rule.max, slot.curr, now, rule.window, rule.expires)
  }

  datatype AddResult = Stored(ev: Events) | NoSpace(ev: Events) | Hangs

  function AddTo(ev: Events, kind: nat, sid: nat, src: string, rule: Rule, now: int): AddResult
    requires |ev.slots| > 0
  {
    match Outcome(UsedBits(ev.slots), ev.cursor)
    case Found(c) =>
      SearchOutcome(UsedBits(ev.slots), ev.cursor);
      Stored(Events(ev.slots[c := NewSlot(ev.slots[c], kind, sid, src, rule, now)], ev.len + 1, c + 1))
    case Full(c) => NoSpace(ev.(cursor := c))
    case Probing(_, _) => Hangs
  }

  function Bumped(e: Slot): Slot {
    if e.curr < e.max then e.(curr := e.curr + 1) else e
  }

  datatype Arrival = Arrival(kind: nat, sid: nat, src: string, rule: Rule, now: int)

  /** How the event side of ban_handle_event ends: the new list and the slot that counted
      the event, if any; or never. */
  datatype Handled = Handled(ev: Events, at: Option<nat>) | NeverReturns

  function CountAt(ev: Events, a: Arrival): Handled {
    var i := Find(ev.slots, a.kind, a.sid, a.src);
    if i < |ev.slots| then Handled(ev.(slots := ev.slots[i := Bumped(ev.slots[i])]), Some(i))
    else Handled(ev, None)
  }

  /** Expiry has been done: handling the event from there. */
  function HandleFrom(ev: Events, a: Arrival): Handled
    requires |ev.slots| > 0
  {
    if Find(ev.slots, a.kind, a.sid, a.src) == |ev.slots| && a.rule.max > 0 then
      match AddTo(ev, a.kind, a.sid, a.src, a.rule, a.now)
      case Stored(ev2) => CountAt(ev2, a)
      case NoSpace(ev2) => CountAt(ev2, a)
      case Hangs => NeverReturns
    else
      CountAt(ev, a)
  }

  function Handle(ev: Events, a: Arrival): Handled
    requires |ev.slots| > 0
  {
    HandleFrom(Expired(ev, a.now), a)
  }

  /** The threshold test that follows: has the counted slot reached its maximum? */
  predicate Reached(h: Handled) {
    && h.Handled? && h.at.Some? && h.at.value < |h.ev.slots|
    && h.ev.slots[h.at.value].curr >= h.ev.slots[h.at.value].max
  }

  // ----- Invariant steps -----

  lemma StoreKeepsWf(ev: Events, c: nat, e: Slot)
    requires Wf(ev) && c < |ev.slots| && ev.slots[c].kind == 0 && e.kind != 0
    ensures Wf(Events(ev.slots[c := e], ev.len + 1, c + 1))
  {
    CountAfterUpdate(ev.slots, IsUsed, c, e);
  }

  lemma ReplaceKeepsWf(ev: Events, i: nat, e: Slot)
    requires Wf(ev) && i < |ev.slots| && ev.slots[i].kind != 0 && e.kind != 0
    ensures Wf(ev.(slots := ev.slots[i := e]))
  {
    CountAfterUpdate(ev.slots, IsUsed, i, e);
  }

  lemma FreeKeepsWf(ev: Events, i: nat)
    requires Wf(ev) && i < |ev.slots| && ev.slots[i].kind != 0
    ensures ev.len > 0
    ensures Wf(ev.(slots := ev.slots[i := FREE], len := ev.len - 1))
  {
    CountAfterUpdate(ev.slots, IsUsed, i, FREE);
    CountBounds(UsedBits(ev.slots));
  }

  // ----- The list in memory -----

  class List {
    const n: nat
    const entries: array<Slot>
    var listlen: nat
    var nextSlot: nat

    function View(): Events
      reads this, entries
      requires n <= entries.Length
    {
      Events(entries[..n], listlen, nextSlot)
    }

    ghost predicate Valid()
      reads this, entries
    {
      && n <= entries.Length
      && Wf(View())
      && forall i :: n <= i < entries.Length ==> entries[i] == FREE
    }

    constructor (n: nat, headroom: nat)
      requires n > 0
      ensures Valid() && this.n == n && entries.Length == n + headroom && fresh(entries)
      ensures View() == Events(seq(n, _ => FREE), 0, 0)
      ensures forall i :: 0 <= i < entries.Length ==> entries[i] == Slot(0, 0, "", 0, 0, 0, 0, 0)
    {
      this.n := n;
      entries := new Slot[n + headroom](_ => FREE);
      listlen, nextSlot := 0, 0;
      new;
      assert entries[..n] == seq(n, _ => FREE);
      CountBounds(UsedBits(entries[..n]));
    }

    /** ban_event_list_add, for the calls that return. */
    method Add(kind: nat, sid: nat, src: string, rule: Rule, now: int) returns (ok: bool)
      requires Valid() && kind != 0
      requires Stops(UsedBits(View().slots), nextSlot)
      modifies this, entries
      ensures Valid()
      ensures ok <==> HasFree(UsedBits(old(View()).slots))
      ensures AddTo(old(View()), kind, sid, src, rule, now) == if ok then Stored(View()) else NoSpace(View())
      ensures ok ==>
        exists c :: 0 <= c < n && old(entries[c]).kind == 0 && nextSlot == c + 1
          && entries[..n] == old(entries[..n])[c := entries[c]]
          && var e := entries[c];
             && e.kind == kind && e.sid == sid && e.src == (if |src| < 128 then src else src[..127])
             && e.max == rule.max && e.curr == 0
             && e.start == now && e.window == rule.window && e.expires == rule.expires
      ensures !ok ==> entries[..n] == old(entries[..n])
    {
      hide Turns, Turn, Count;
      SearchOutcome(UsedBits(entries[..n]), nextSlot);
      ok, nextSlot := Seek(entries, n, IsUsed, nextSlot);
      if ok {
        var e := NewSlot(entries[nextSlot], kind, sid, src, rule, now);
        StoreKeepsWf(old(View()), nextSlot, e);
        entries[nextSlot] := e;
        assert entries[..n] == old(entries[..n])[nextSlot := e];
        nextSlot := nextSlot + 1;
        listlen := listlen + 1;
      }
    }

    /** ban_event_list_get: the index of the first slot for the source, n if there is none. */
    method Get(kind: nat, sid: nat, src: string) returns (i: nat)
      requires Valid() && kind != 0
      ensures i == Find(View().slots, kind, sid, src)
    {
      hide Count;
      i := 0;
      if listlen != 0 {
        while i < n && !IsFor(entries[i], kind, sid, src)
          invariant 0 <= i <= n
          invariant forall j :: 0 <= j < i ==> !IsFor(entries[j], kind, sid, src)
        {
          i := i + 1;
        }
      } else {
        NoneUsed(View().slots, IsUsed);
        i := n;
      }
      FirstIsFind(View().slots, kind, sid, src, i);
    }

    /** ban_event_list_remove, with a source or for all sources of a kind and server. */
    method Remove(kind: nat, sid: nat, src: Option<string>) returns (ok: bool)
      requires Valid() && kind != 0
      modifies this`listlen, entries
      ensures Valid()
      ensures View().slots == Removed(old(View()).slots, kind, sid, src)
      ensures src.None? ==> forall k :: 0 <= k < n ==>
        entries[k] == if old(entries[k]).kind == kind && old(entries[k]).sid == sid then FREE else old(entries[k])
      ensures ok <==> src.None? || Find(old(View()).slots, kind, sid, src.value) < n
    {
      hide Count, Wf, Find;
      ghost var slots := entries[..n];
      if listlen != 0 {
        for i := 0 to n
          invariant Valid()
          invariant forall k :: i <= k < n ==> entries[k] == slots[k]
          invariant src.Some? ==> entries[..n] == slots
          invariant src.Some? ==> forall k :: 0 <= k < i ==> !IsFor(slots[k], kind, sid, src.value)
          invariant src.None? ==> forall k :: 0 <= k < i ==>
            entries[k] == if slots[k].kind == kind && slots[k].sid == sid then FREE else slots[k]
        {
          if entries[i].kind == kind && entries[i].sid == sid && (src.Some? ==> entries[i].src == src.value) {
            ghost var before := entries[..n];
            FreeKeepsWf(View(), i);
            entries[i] := FREE;
            assert entries[..n] == before[i := FREE];
            listlen := listlen - 1;
            if src.Some? {
              FirstIsFind(slots, kind, sid, src.value, i);
              return true;
            }
          }
        }
      } else {
        CounterIsCount(View());
        NoneUsed(View().slots, IsUsed);
      }
      if src.Some? {
        FirstIsFind(slots, kind, sid, src.value, n);
      } else {
        assert entries[..n] == Removed(slots, kind, sid, src);
      }
      return src.None?;
    }

    /** ban_event_list_expire. */
    method Expire(now: int)
      requires Valid()
      modifies this`listlen, entries
      ensures Valid()
      ensures View() == Expired(old(View()), now)
    {
      hide Count, Wf, Find, Removed;
      ghost var slots := entries[..n];
      CounterIsCount(View());
      if listlen == 0 {
        NoneUsed(View().slots, IsUsed);
        NothingStale(slots, now, n);
        return;
      }
      for i := 0 to n
        invariant Valid()
        invariant entries[..n] == ExpireScan(slots, now, i)
      {
        var e := entries[i];
        if Stale(e, now) {
          var _ := Remove(e.kind, e.sid, Some(e.src));
        }
      }
      CounterIsCount(View());
    }
  }

  lemma CounterIsCount(ev: Events)
    requires Wf(ev)
    ensures ev.len == Count(UsedBits(ev.slots))
  {
  }

  lemma FindBound(slots: seq<Slot>, kind: nat, sid: nat, src: string)
    ensures Find(slots, kind, sid, src) <= |slots|
    ensures Find(slots, kind, sid, src) < |slots| ==> IsFor(slots[Find(slots, kind, sid, src)], kind, sid, src)
  {
  }

  lemma FirstIsFind(slots: seq<Slot>, kind: nat, sid: nat, src: string, i: nat)
    requires i <= |slots| && (i < |slots| ==> IsFor(slots[i], kind, sid, src))
    requires forall j :: 0 <= j < i ==> !IsFor(slots[j], kind, sid, src)
    ensures Find(slots, kind, sid, src) == i
  {
  }

  // ----- Which slots an expiry clears -----

  lemma {:induction false} NothingStale(slots: seq<Slot>, now: int, n: nat)
    requires n <= |slots| && forall i :: 0 <= i < |slots| ==> !Stale(slots[i], now)
    ensures ExpireScan(slots, now, n) == slots
  {
    if n > 0 {
      NothingStale(slots, now, n - 1);
    }
  }

  /** How many of the first m slots are for the source. */
  function Slots(slots: seq<Slot>, kind: nat, sid: nat, src: string, m: nat): (c: nat)
    requires m <= |slots|
    ensures c <= m
  {
    if m == 0 then 0
    else Slots(slots, kind, sid, src, m - 1) + if IsFor(slots[m - 1], kind, sid, src) then 1 else 0
  }

  /** How many of them are stale. */
  function StaleSlots(slots: seq<Slot>, kind: nat, sid: nat, src: string, now: int, m: nat): (c: nat)
    requires m <= |slots|
    ensures c <= Slots(slots, kind, sid, src, m)
  {
    if m == 0 then 0
    else
      StaleSlots(slots, kind, sid, src, now, m - 1)
      + if IsFor(slots[m - 1], kind, sid, src) && Stale(slots[m - 1], now) then 1 else 0
  }

  lemma {:induction false} SlotsGrow(slots: seq<Slot>, kind: nat, sid: nat, src: string, i: nat, j: nat)
    requires i < j <= |slots| && IsFor(slots[i], kind, sid, src)
    ensures Slots(slots, kind, sid, src, i) < Slots(slots, kind, sid, src, j)
  {
    if i < j - 1 {
      SlotsGrow(slots, kind, sid, src, i, j - 1);
    }
  }

  /** The slot of a source with c others of that source before it. */
  lemma {:induction false} NthSlot(slots: seq<Slot>, kind: nat, sid: nat, src: string, c: nat, m: nat) returns (j: nat)
    requires m <= |slots| && c < Slots(slots, kind, sid, src, m)
    ensures j < m && IsFor(slots[j], kind, sid, src) && Slots(slots, kind, sid, src, j) == c
  {
    if c == Slots(slots, kind, sid, src, m - 1) {
      j := m - 1;
    } else {
      j := NthSlot(slots, kind, sid, src, c, m - 1);
    }
  }

  /** The scan has cleared this slot by the time it has looked at the first n. */
  predicate Swept(slots: seq<Slot>, now: int, n: nat, k: nat)
    requires n <= |slots| && k < |slots|
  {
    var e := slots[k];
    e.kind != 0 && Slots(slots, e.kind, e.sid, e.src, k) < StaleSlots(slots, e.kind, e.sid, e.src, now, n)
  }

  ghost predicate ScannedTo(slots: seq<Slot>, now: int, n: nat, cur: seq<Slot>)
    requires n <= |slots| == |cur|
  {
    forall k :: 0 <= k < |slots| ==> cur[k] == if Swept(slots, now, n, k) then FREE else slots[k]
  }

  /** A stale slot of a source with c stale ones before it clears that source's slot number c. */
  lemma {:induction false} FirstRemaining(slots: seq<Slot>, now: int, n: nat, cur: seq<Slot>)
    requires n < |slots| == |cur| && ScannedTo(slots, now, n, cur) && Stale(slots[n], now)
    ensures var e := slots[n];
            var f := Find(cur, e.kind, e.sid, e.src);
            && f <= n && IsFor(slots[f], e.kind, e.sid, e.src)
            && Slots(slots, e.kind, e.sid, e.src, f) == StaleSlots(slots, e.kind, e.sid, e.src, now, n)
  {
    hide Find;
    var e := slots[n];
    var c := StaleSlots(slots, e.kind, e.sid, e.src, now, n);
    assert !Swept(slots, now, n, n);
    assert cur[n] == e;
    var f: nat := n;
    if c < Slots(slots, e.kind, e.sid, e.src, n) {
      f := NthSlot(slots, e.kind, e.sid, e.src, c, n);
    }
    assert !Swept(slots, now, n, f);
    forall j | 0 <= j < f ensures !IsFor(cur[j], e.kind, e.sid, e.src) {
      if IsFor(slots[j], e.kind, e.sid, e.src) {
        SlotsGrow(slots, e.kind, e.sid, e.src, j, f);
        assert Swept(slots, now, n, j);
      }
    }
    FirstIsFind(cur, e.kind, e.sid, e.src, f);
  }

  lemma {:induction false} SweepStep(slots: seq<Slot>, now: int, n: nat, f: nat, k: nat)
    requires n < |slots| && f < |slots| && k < |slots| && Stale(slots[n], now)
    requires var e := slots[n];
      && IsFor(slots[f], e.kind, e.sid, e.src)
      && Slots(slots, e.kind, e.sid, e.src, f) == StaleSlots(slots, e.kind, e.sid, e.src, now, n)
    ensures Swept(slots, now, n + 1, k) <==> Swept(slots, now, n, k) || k == f
  {
    var e := slots[n];
    if IsFor(slots[k], e.kind, e.sid, e.src) {
      if k < f {
        SlotsGrow(slots, e.kind, e.sid, e.src, k, f);
      } else if f < k {
        SlotsGrow(slots, e.kind, e.sid, e.src, f, k);
      }
    }
  }

  lemma {:induction false} ScanSweeps(slots: seq<Slot>, now: int, n: nat)
    requires n <= |slots|
    ensures ScannedTo(slots, now, n, ExpireScan(slots, now, n))
  {
    hide Find, Slots, StaleSlots, Swept;
    if n == 0 {
      forall k | 0 <= k < |slots| ensures !Swept(slots, now, 0, k) {
        NotSweptYet(slots, now, k);
      }
    } else {
      ScanSweeps(slots, now, n - 1);
      var cur := ExpireScan(slots, now, n - 1);
      OwnTurnIsFirst(slots, now, n - 1);
      if Stale(slots[n - 1], now) {
        FirstRemaining(slots, now, n - 1, cur);
        var e := slots[n - 1];
        var f := Find(cur, e.kind, e.sid, e.src);
        forall k | 0 <= k < |slots|
          ensures Swept(slots, now, n, k) <==> Swept(slots, now, n - 1, k) || k == f
        {
          SweepStep(slots, now, n - 1, f, k);
        }
      } else {
        forall k | 0 <= k < |slots| ensures Swept(slots, now, n, k) <==> Swept(slots, now, n - 1, k) {
          NotStaleSweepsNothing(slots, now, n - 1, k);
        }
      }
    }
  }

  lemma NotSweptYet(slots: seq<Slot>, now: int, k: nat)
    requires k < |slots|
    ensures !Swept(slots, now, 0, k)
  {
  }

  /** No slot is cleared before the scan reaches it. */
  lemma OwnTurnIsFirst(slots: seq<Slot>, now: int, n: nat)
    requires n < |slots|
    ensures !Swept(slots, now, n, n)
  {
  }

  lemma NotStaleSweepsNothing(slots: seq<Slot>, now: int, n: nat, k: nat)
    requires n < |slots| && k < |slots| && !Stale(slots[n], now)
    ensures Swept(slots, now, n + 1, k) <==> Swept(slots, now, n, k)
  {
  }

  /** Exactly which slots outlive an expiry: a source with s stale slots loses its first s, be
      they stale or not. */
  lemma {:induction false} ExpiryClearsFirstSlots(ev: Events, now: int, k: nat)
    requires k < |ev.slots| && ev.slots[k].kind != 0
    ensures var e := ev.slots[k];
            Expired(ev, now).slots[k] ==
              if Slots(ev.slots, e.kind, e.sid, e.src, k) < StaleSlots(ev.slots, e.kind, e.sid, e.src, now, |ev.slots|)
              then FREE else e
  {
    ScanSweeps(ev.slots, now, |ev.slots|);
    assert Swept(ev.slots, now, |ev.slots|, k) || !Swept(ev.slots, now, |ev.slots|, k);
  }

  /** No other slot is for the same source. */
  predicate Lone(slots: seq<Slot>, k: nat)
    requires k < |slots|
  {
    forall j :: 0 <= j < |slots| && j != k ==> !IsFor(slots[j], slots[k].kind, slots[k].sid, slots[k].src)
  }

  lemma {:induction false} LoneCounts(slots: seq<Slot>, now: int, k: nat, m: nat)
    requires k < |slots| && m <= |slots| && Lone(slots, k)
    ensures var e := slots[k];
            && Slots(slots, e.kind, e.sid, e.src, m) == (if k < m then 1 else 0)
            && StaleSlots(slots, e.kind, e.sid, e.src, now, m) == (if k < m && Stale(e, now) then 1 else 0)
  {
    if m > 0 {
      LoneCounts(slots, now, k, m - 1);
    }
  }

  /** A slot with a source of its own is cleared exactly when its window is over. */
  lemma {:induction false} LoneSlotExpires(ev: Events, now: int, k: nat)
    requires k < |ev.slots| && ev.slots[k].kind != 0 && Lone(ev.slots, k)
    ensures Expired(ev, now).slots[k] == if Stale(ev.slots[k], now) then FREE else ev.slots[k]
    ensures var e := ev.slots[k];
            Expired(ev, now).slots[k] == if e.expires != 0 && e.start + e.window <= now then FREE else e
  {
    hide ExpireScan;
    ExpiryClearsFirstSlots(ev, now, k);
    LoneCounts(ev.slots, now, k, k);
    LoneCounts(ev.slots, now, k, |ev.slots|);
  }

  /** A slot that is changed by an expiry is zeroed, and a free slot stays free. */
  lemma {:induction false} ExpiredOrSame(ev: Events, now: int, k: nat)
    requires k < |ev.slots|
    ensures Expired(ev, now).slots[k] == FREE || Expired(ev, now).slots[k] == ev.slots[k]
  {
    ScanSweeps(ev.slots, now, |ev.slots|);
  }

  /** With one slot per source, exactly the slots whose window is over are cleared. */
  lemma {:induction false} DistinctExpiry(ev: Events, now: int)
    requires Distinct(ev.slots) && Wf(ev)
    ensures forall k :: 0 <= k < |ev.slots| ==>
      Expired(ev, now).slots[k] == if Stale(ev.slots[k], now) then FREE else ev.slots[k]
  {
    hide ExpireScan, Count;
    forall k | 0 <= k < |ev.slots|
      ensures Expired(ev, now).slots[k] == if Stale(ev.slots[k], now) then FREE else ev.slots[k]
    {
      if ev.slots[k].kind != 0 {
        LoneSlotExpires(ev, now, k);
      } else {
        ExpiredOrSame(ev, now, k);
      }
    }
  }
}
