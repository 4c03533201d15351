/** The event half of ban_handle_event of contrib/mod_ban.c over whole runs: what a counter
    means, and when handling an event never returns.
*/
module BanCounting {
  import opened Basics
  import opened SlotSearch
  import opened BanEvents
  import BanList

  // ----- The log of counted events -----

  /** A counted event, with the rule it was handled under. */
  datatype Record = Record(kind: nat, sid: nat, src: string, rule: Rule, time: int)

  predicate About(r: Record, e: Slot) {
    r.kind == e.kind && r.sid == e.sid && r.src == e.src
  }

  /** How many logged events of slot e's source happened at or after time since. */
  function Hits(log: seq<Record>, e: Slot, since: int): nat {
    if log == [] then 0 else
      var r := log[|log| - 1];
      Hits(log[..|log| - 1], e, since) + (if About(r, e) && r.time >= since then 1 else 0)
  }

  lemma HitsAppend(log: seq<Record>, r: Record, e: Slot, since: int)
    ensures Hits(log + [r], e, since)
         == Hits(log, e, since) + (if About(r, e) && r.time >= since then 1 else 0)
  {
    assert (log + [r])[..|log|] == log;
  }

  lemma {:induction false} NoHits(log: seq<Record>, e: Slot, since: int)
    requires forall i :: 0 <= i < |log| && About(log[i], e) ==> log[i].time < since
    ensures Hits(log, e, since) == 0
  {
    if log != [] {
      NoHits(log[..|log| - 1], e, since);
    }
  }

  lemma {:induction false} HitsSameSource(log: seq<Record>, e: Slot, e': Slot, since: int)
    requires e.kind == e'.kind && e.sid == e'.sid && e.src == e'.src
    ensures Hits(log, e, since) == Hits(log, e', since)
  {
    if log != [] {
      HitsSameSource(log[..|log| - 1], e, e', since);
    }
  }

  // ----- Runs -----

  datatype State = State(ev: Events, log: seq<Record>, clock: int)

  datatype Op = Event(a: Arrival) | Tick(now: int)

  function TimeOf(op: Op): int {
    match op case Event(a) => a.now case Tick(now) => now
  }

  /** Rules come from the configuration. */
  predicate OpOk(op: Op) {
    op.Event? ==> op.a.kind != 0 && RuleOk(op.a.rule)
  }

  predicate SourceFits(src: string) {
    |src| < BanList.BAN_STRING_MAXSZ
  }

  /** The text an over-long source is cut to, if the operation has one, is in the given set. */
  predicate CutInto(op: Op, cut: set<string>) {
    op.Event? && !SourceFits(op.a.src) ==> BanList.Clip(op.a.src) in cut
  }

  /** One event or timer tick; None when it never returns. */
  function Step(s: State, op: Op): Option<State>
    requires |s.ev.slots| > 0
  {
    match op
    case Tick(now) => Some(State(Expired(s.ev, now), s.log, now))
    case Event(a) =>
      match Handle(s.ev, a)
      case NeverReturns => None
      case Handled(ev, at) =>
        Some(State(ev, if at.Some? then s.log + [Record(a.kind, a.sid, a.src, a.rule, a.now)] else s.log, a.now))
  }

  function Run(s: State, ops: seq<Op>): Option<State>
    requires |s.ev.slots| > 0
    decreases |ops|
  {
    if ops == [] then Some(s) else
      match Run(s, ops[..|ops| - 1])
      case None => None
      case Some(s') => if |s'.ev.slots| > 0 then Step(s', ops[|ops| - 1]) else None
  }

  /** The slot was opened by a logged event, at its start and with that event's rule. */
  predicate Opened(e: Slot, log: seq<Record>) {
    exists i :: 0 <= i < |log| && About(log[i], e) && log[i].time == e.start
      && log[i].rule.max == e.max && log[i].rule.window == e.window && log[i].rule.expires == e.expires
  }

  lemma OpenedStays(e: Slot, log: seq<Record>, r: Record)
    requires Opened(e, log)
    ensures Opened(e, log + [r])
  {
    var i :| 0 <= i < |log| && About(log[i], e) && log[i].time == e.start
      && log[i].rule.max == e.max && log[i].rule.window == e.window && log[i].rule.expires == e.expires;
    assert (log + [r])[i] == log[i];
  }

  lemma OpenedByLast(e: Slot, log: seq<Record>, r: Record)
    requires About(r, e) && r.time == e.start
    requires r.rule.max == e.max && r.rule.window == e.window && r.rule.expires == e.expires
    ensures Opened(e, log + [r])
  {
    assert (log + [r])[|log|] == r;
  }

  /** The counter of a slot is exact for its window: it is the number of events logged for
      its source since the slot's start, cut off at the maximum, and all of them fell
      inside the window. */
  ghost predicate Exact(e: Slot, log: seq<Record>, clock: int) {
    && e.max > 0 && e.window > 0 && e.expires != 0 && e.start <= clock
    && Opened(e, log)
    && Hits(log, e, e.start) >= 1
    && e.curr == (if Hits(log, e, e.start) < e.max then Hits(log, e, e.start) else e.max)
    && forall i :: 0 <= i < |log| && About(log[i], e) ==> log[i].time < e.start + e.window
  }

  predicate HasSlot(slots: seq<Slot>, r: Record) {
    exists i :: 0 <= i < |slots| && slots[i].kind != 0 && About(r, slots[i])
  }

  /** Stored sources are cut to their buffer. */
  predicate StoredFit(slots: seq<Slot>) {
    forall i :: 0 <= i < |slots| ==> SourceFits(slots[i].src)
  }

  /** A used slot whose source is not a text that an over-long source is cut to. */
  predicate Clean(e: Slot, cut: set<string>) {
    e.kind != 0 && e.src !in cut
  }

  /** The invariant of every run, for the sources outside a set of texts: one slot each, with an
      exact counter; and a source without a slot had its last event before now. */
  ghost predicate Inv(s: State, cut: set<string>) {
    && Wf(s.ev)
    && StoredFit(s.ev.slots)
    && (forall i :: 0 <= i < |s.ev.slots| && Clean(s.ev.slots[i], cut) ==> Lone(s.ev.slots, i))
    && (forall i :: 0 <= i < |s.ev.slots| && Clean(s.ev.slots[i], cut) ==> Exact(s.ev.slots[i], s.log, s.clock))
    && (forall i :: 0 <= i < |s.log| ==> s.log[i].time <= s.clock && s.log[i].kind != 0)
    && (forall i :: 0 <= i < |s.log| && s.log[i].src !in cut && !HasSlot(s.ev.slots, s.log[i]) ==>
          s.log[i].time < s.clock)
  }

  lemma ExpiredWf(ev: Events, now: int)
    requires Wf(ev) && StoredFit(ev.slots)
    ensures Wf(Expired(ev, now)) && StoredFit(Expired(ev, now).slots)
  {
    hide Count, ExpireScan;
    forall k | 0 <= k < |ev.slots|
      ensures Expired(ev, now).slots[k] == FREE || Expired(ev, now).slots[k] == ev.slots[k]
    {
      ExpiredOrSame(ev, now, k);
    }
  }

  /** Expiry keeps the invariant, and leaves only windows that are still open. */
  lemma {:induction false} ExpireKeepsInv(s: State, now: int, cut: set<string>)
    requires Inv(s, cut) && s.clock <= now
    ensures Inv(State(Expired(s.ev, now), s.log, now), cut)
    ensures forall i :: 0 <= i < |s.ev.slots| && Clean(Expired(s.ev, now).slots[i], cut) ==>
      now < Expired(s.ev, now).slots[i].start + Expired(s.ev, now).slots[i].window
  {
    hide Count, Hits, ExpireScan, Wf, Lone;
    ExpiredWf(s.ev, now);
    var slots := Expired(s.ev, now).slots;
    forall k | 0 <= k < |slots| ensures slots[k] == FREE || slots[k] == s.ev.slots[k] {
      ExpiredOrSame(s.ev, now, k);
    }
    forall k | 0 <= k < |slots| && Clean(s.ev.slots[k], cut)
      ensures slots[k] == if Stale(s.ev.slots[k], now) then FREE else s.ev.slots[k]
    {
      LoneSlotExpires(s.ev, now, k);
    }
    forall k | 0 <= k < |slots| && Clean(slots[k], cut) ensures Lone(slots, k) {
      LoneStays(s.ev.slots, slots, k);
    }
    forall i | 0 <= i < |s.log| && s.log[i].src !in cut && !HasSlot(slots, s.log[i]) ensures s.log[i].time < now {
      if HasSlot(s.ev.slots, s.log[i]) {
        var k :| 0 <= k < |s.ev.slots| && s.ev.slots[k].kind != 0 && About(s.log[i], s.ev.slots[k]);
        assert Exact(s.ev.slots[k], s.log, s.clock);
        assert slots[k] == FREE;
      }
    }
  }

  lemma LoneStays(slots: seq<Slot>, slots': seq<Slot>, k: nat)
    requires k < |slots| == |slots'| && Lone(slots, k) && slots'[k] == slots[k] && slots[k].kind != 0
    requires forall j :: 0 <= j < |slots| ==> slots'[j] == FREE || slots'[j] == slots[j]
    ensures Lone(slots', k)
  {
  }

  /** Counting one event in its slot, which its window still covers. */
  lemma {:induction false} CountKeepsInv(s: State, i: nat, rule: Rule, now: int, cut: set<string>)
    requires i < |s.ev.slots| && Clean(s.ev.slots[i], cut) && s.clock == now
    requires Wf(s.ev) && StoredFit(s.ev.slots)
    requires forall k :: 0 <= k < |s.ev.slots| && Clean(s.ev.slots[k], cut) ==> Lone(s.ev.slots, k)
    requires var e := s.ev.slots[i];
      && e.max > 0 && e.window > 0 && e.expires != 0 && e.start <= now < e.start + e.window
      && e.curr == (if Hits(s.log, e, e.start) < e.max then Hits(s.log, e, e.start) else e.max)
      && (forall j :: 0 <= j < |s.log| && About(s.log[j], e) ==> s.log[j].time < e.start + e.window)
      && Opened(e, s.log + [Record(e.kind, e.sid, e.src, rule, now)])
    requires forall k :: 0 <= k < |s.ev.slots| && k != i && Clean(s.ev.slots[k], cut) ==>
      Exact(s.ev.slots[k], s.log, now)
    requires forall j :: 0 <= j < |s.log| ==> s.log[j].time <= now && s.log[j].kind != 0
    requires forall j :: 0 <= j < |s.log| && s.log[j].src !in cut && !HasSlot(s.ev.slots, s.log[j]) ==>
      s.log[j].time < now
    ensures var e := s.ev.slots[i];
            var log := s.log + [Record(e.kind, e.sid, e.src, rule, now)];
            var ev := s.ev.(slots := s.ev.slots[i := Bumped(e)]);
            && Inv(State(ev, log, now), cut)
            && (ev.slots[i].curr >= ev.slots[i].max <==> Hits(log, ev.slots[i], ev.slots[i].start) >= ev.slots[i].max)
  {
    hide Count, Hits, Lone, Wf;
    var e := s.ev.slots[i];
    var r := Record(e.kind, e.sid, e.src, rule, now);
    var log, ev := s.log + [r], s.ev.(slots := s.ev.slots[i := Bumped(e)]);
    ReplaceKeepsWf(s.ev, i, Bumped(e));
    HitsAppend(s.log, r, e, e.start);
    HitsSameSource(log, e, Bumped(e), e.start);
    forall k | 0 <= k < |ev.slots| && Clean(ev.slots[k], cut) ensures Lone(ev.slots, k) {
      LoneWhenBumped(s.ev.slots, i, k);
    }
    forall k | 0 <= k < |ev.slots| && Clean(ev.slots[k], cut) ensures Exact(ev.slots[k], log, now) {
      if k != i {
        OtherSlotStaysExact(s.ev.slots, i, k, s.log, r, now);
      }
    }
    assert About(r, ev.slots[i]) && HasSlot(ev.slots, r);
    forall j | 0 <= j < |log| && log[j].src !in cut && !HasSlot(ev.slots, log[j]) ensures log[j].time < now {
      if HasSlot(s.ev.slots, log[j]) {
        SlotStays(s.ev.slots, i, log[j]);
      }
    }
  }

  lemma LoneWhenBumped(slots: seq<Slot>, i: nat, k: nat)
    requires i < |slots| && k < |slots| && Lone(slots, k)
    ensures Lone(slots[i := Bumped(slots[i])], k)
  {
  }

  lemma OtherSlotStaysExact(slots: seq<Slot>, i: nat, k: nat, log: seq<Record>, r: Record, now: int)
    requires i < |slots| && k < |slots| && i != k && Lone(slots, k)
    requires About(r, slots[i]) && Exact(slots[k], log, now)
    ensures Exact(slots[k], log + [r], now)
  {
    hide Hits;
    assert !IsFor(slots[i], slots[k].kind, slots[k].sid, slots[k].src);
    ForeignRecord(slots[k], log, r, now);
  }

  /** A record of another source leaves a counter exact. */
  lemma ForeignRecord(e: Slot, log: seq<Record>, r: Record, now: int)
    requires Exact(e, log, now) && !About(r, e)
    ensures Exact(e, log + [r], now)
  {
    hide Hits;
    HitsAppend(log, r, e, e.start);
    OpenedStays(e, log, r);
  }

  lemma CleanSlotStays(slots: seq<Slot>, c: nat, e: Slot, r: Record, cut: set<string>)
    requires c < |slots| && !Clean(slots[c], cut) && r.src !in cut && HasSlot(slots, r)
    ensures HasSlot(slots[c := e], r)
  {
    var k :| 0 <= k < |slots| && slots[k].kind != 0 && About(r, slots[k]);
    assert About(r, slots[c := e][k]);
  }

  /** A slot taken or changed for a text that over-long sources are cut to, and the events
      logged for such a text, touch no other source. */
  lemma {:induction false} ForeignSlotKeepsInv(s: State, c: nat, ev: Events, rs: seq<Record>, cut: set<string>)
    requires Inv(s, cut) && c < |s.ev.slots| && !Clean(s.ev.slots[c], cut)
    requires Wf(ev) && |ev.slots| == |s.ev.slots| && ev.slots == s.ev.slots[c := ev.slots[c]]
    requires ev.slots[c].kind != 0 && ev.slots[c].src in cut && SourceFits(ev.slots[c].src)
    requires |rs| <= 1
    requires forall r :: r in rs ==> r.src in cut && r.time == s.clock && r.kind != 0
    ensures Inv(State(ev, s.log + rs, s.clock), cut)
  {
    hide Count, Hits, Wf;
    var log := s.log + rs;
    forall k | 0 <= k < |ev.slots| && Clean(ev.slots[k], cut) ensures Exact(ev.slots[k], log, s.clock) {
      if rs == [] {
        assert log == s.log;
      } else {
        assert rs[0] in rs;
        ForeignRecord(ev.slots[k], s.log, rs[0], s.clock);
        assert log == s.log + [rs[0]];
      }
    }
    forall k | 0 <= k < |ev.slots| && Clean(ev.slots[k], cut) ensures Lone(ev.slots, k) {
      assert Lone(s.ev.slots, k);
    }
    forall j | 0 <= j < |log| ensures log[j].time <= s.clock && log[j].kind != 0 {
      assert log[j] == if j < |s.log| then s.log[j] else rs[j - |s.log|];
    }
    forall j | 0 <= j < |log| && log[j].src !in cut && !HasSlot(ev.slots, log[j]) ensures log[j].time < s.clock {
      if j < |s.log| && HasSlot(s.ev.slots, log[j]) {
        CleanSlotStays(s.ev.slots, c, ev.slots[c], log[j], cut);
      }
    }
  }

  lemma NoSlotFor(slots: seq<Slot>, kind: nat, sid: nat, src: string, r: Record)
    requires Find(slots, kind, sid, src) == |slots|
    requires r.kind == kind && r.sid == sid && r.src == src
    ensures !HasSlot(slots, r)
  {
    assert forall k :: 0 <= k < |slots| ==> !IsFor(slots[k], kind, sid, src);
  }

  lemma SlotStaysBeside(slots: seq<Slot>, c: nat, e: Slot, r: Record)
    requires c < |slots| && slots[c].kind == 0 && HasSlot(slots, r)
    ensures HasSlot(slots[c := e], r)
  {
    var k :| 0 <= k < |slots| && slots[k].kind != 0 && About(r, slots[k]);
    assert About(r, slots[c := e][k]);
  }

  lemma SlotStays(slots: seq<Slot>, i: nat, r: Record)
    requires i < |slots| && HasSlot(slots, r)
    ensures HasSlot(slots[i := Bumped(slots[i])], r)
  {
    var k :| 0 <= k < |slots| && slots[k].kind != 0 && About(r, slots[k]);
    assert About(r, slots[i := Bumped(slots[i])][k]);
  }

  /** The log shows at least the maximum number of events for the counted slot's source
      since the slot's start. */
  predicate CrossedIn(h: Handled, log: seq<Record>) {
    && h.Handled? && h.at.Some? && h.at.value < |h.ev.slots|
    && Hits(log, h.ev.slots[h.at.value], h.ev.slots[h.at.value].start) >= h.ev.slots[h.at.value].max
  }

  function Logged(log: seq<Record>, h: Handled, a: Arrival): seq<Record> {
    if h.Handled? && h.at.Some? then log + [Record(a.kind, a.sid, a.src, a.rule, a.now)] else log
  }

  /** An event keeps every counter exact. It crosses the threshold exactly when its source has
      reached the maximum within its window, unless its source is a text that over-long ones
      are cut to; and an over-long one is never counted. */
  lemma {:induction false} EventKeepsInv(s: State, a: Arrival, cut: set<string>)
    requires Inv(s, cut) && s.clock <= a.now && OpOk(Event(a)) && CutInto(Event(a), cut)
    requires Step(s, Event(a)).Some?
    ensures Inv(Step(s, Event(a)).value, cut)
    ensures a.src !in cut && SourceFits(a.src) ==>
      (Reached(Handle(s.ev, a)) <==> CrossedIn(Handle(s.ev, a), Step(s, Event(a)).value.log))
    ensures !SourceFits(a.src) ==> Handle(s.ev, a).at.None?
  {
    hide Count, Hits, Turns, Exact, ExpireScan;
    ExpireKeepsInv(s, a.now, cut);
    var s1 := State(Expired(s.ev, a.now), s.log, a.now);
    if SourceFits(a.src) && a.src !in cut {
      OwnEventKeepsInv(s1, a, cut);
    } else {
      ForeignEventKeepsInv(s1, a, cut);
    }
  }

  lemma {:induction false} OwnEventKeepsInv(s: State, a: Arrival, cut: set<string>)
    requires Inv(s, cut) && s.clock == a.now && OpOk(Event(a)) && SourceFits(a.src) && a.src !in cut
    requires forall i :: 0 <= i < |s.ev.slots| && Clean(s.ev.slots[i], cut) ==>
      a.now < s.ev.slots[i].start + s.ev.slots[i].window
    requires HandleFrom(s.ev, a).Handled?
    ensures var h := HandleFrom(s.ev, a);
            && Inv(State(h.ev, Logged(s.log, h, a), a.now), cut)
            && (Reached(h) <==> CrossedIn(h, Logged(s.log, h, a)))
  {
    hide Count, Hits, Turns, Lone;
    var i := Find(s.ev.slots, a.kind, a.sid, a.src);
    if i < |s.ev.slots| {
      assert Exact(s.ev.slots[i], s.log, a.now);
      OpenedStays(s.ev.slots[i], s.log, Record(a.kind, a.sid, a.src, a.rule, a.now));
      CountKeepsInv(s, i, a.rule, a.now, cut);
    } else if a.rule.max > 0 {
      NewSourceKeepsInv(s, a, cut);
    }
  }

  /** The first event of a source: a zeroed slot starts its window. */
  lemma {:induction false} NewSourceKeepsInv(s: State, a: Arrival, cut: set<string>)
    requires Inv(s, cut) && s.clock == a.now && OpOk(Event(a)) && a.rule.max > 0
    requires SourceFits(a.src) && a.src !in cut
    requires Find(s.ev.slots, a.kind, a.sid, a.src) == |s.ev.slots|
    requires !AddTo(s.ev, a.kind, a.sid, a.src, a.rule, a.now).Hangs?
    ensures var h := CountAt(AddTo(s.ev, a.kind, a.sid, a.src, a.rule, a.now).ev, a);
            && Inv(State(h.ev, Logged(s.log, h, a), a.now), cut)
            && (Reached(h) <==> CrossedIn(h, Logged(s.log, h, a)))
  {
    hide Count, Hits, Turns, Opened, Lone;
    SearchOutcome(UsedBits(s.ev.slots), s.ev.cursor);
    match Outcome(UsedBits(s.ev.slots), s.ev.cursor)
    case Full(c) =>
    case Found(c) =>
      var e := NewSlot(s.ev.slots[c], a.kind, a.sid, a.src, a.rule, a.now);
      var ev2 := Events(s.ev.slots[c := e], s.ev.len + 1, c + 1);
      StoreKeepsWf(s.ev, c, e);
      FirstIsFind(ev2.slots, a.kind, a.sid, a.src, c);
      forall k | 0 <= k < |ev2.slots| && Clean(ev2.slots[k], cut) ensures Lone(ev2.slots, k) {
        LoneWithNew(s.ev.slots, c, e, k);
      }
      forall j | 0 <= j < |s.log| && About(s.log[j], e) ensures s.log[j].time < a.now {
        NoSlotFor(s.ev.slots, a.kind, a.sid, a.src, s.log[j]);
      }
      NoHits(s.log, e, a.now);
      var r := Record(a.kind, a.sid, a.src, a.rule, a.now);
      forall j | 0 <= j < |s.log| && s.log[j].src !in cut && !HasSlot(ev2.slots, s.log[j])
        ensures s.log[j].time < a.now
      {
        if HasSlot(s.ev.slots, s.log[j]) {
          SlotStaysBeside(s.ev.slots, c, e, s.log[j]);
        }
      }
      OpenedByLast(e, s.log, r);
      CountKeepsInv(State(ev2, s.log, a.now), c, a.rule, a.now, cut);
  }

  lemma LoneWithNew(slots: seq<Slot>, c: nat, e: Slot, k: nat)
    requires c < |slots| && k < |slots| && e.kind != 0
    requires Find(slots, e.kind, e.sid, e.src) == |slots|
    requires k != c ==> slots[k].kind != 0 && Lone(slots, k)
    ensures Lone(slots[c := e], k)
  {
    assert forall j :: 0 <= j < |slots| ==> !IsFor(slots[j], e.kind, e.sid, e.src);
    if k != c {
      assert !IsFor(slots[k], e.kind, e.sid, e.src);
    }
  }

  lemma {:induction false} ForeignEventKeepsInv(s: State, a: Arrival, cut: set<string>)
    requires Inv(s, cut) && s.clock == a.now && OpOk(Event(a)) && CutInto(Event(a), cut)
    requires !SourceFits(a.src) || a.src in cut
    requires HandleFrom(s.ev, a).Handled?
    ensures var h := HandleFrom(s.ev, a);
            && Inv(State(h.ev, Logged(s.log, h, a), a.now), cut)
            && (!SourceFits(a.src) ==> h.at.None?)
  {
    hide Count, Hits, Turns, Exact, Lone;
    var i := Find(s.ev.slots, a.kind, a.sid, a.src);
    var r := Record(a.kind, a.sid, a.src, a.rule, a.now);
    if i < |s.ev.slots| {
      ForeignCountKeepsInv(s, i, r, cut);
    } else if a.rule.max > 0 {
      SearchOutcome(UsedBits(s.ev.slots), s.ev.cursor);
      match Outcome(UsedBits(s.ev.slots), s.ev.cursor)
      case Full(c) =>
      case Found(c) =>
        var e := NewSlot(s.ev.slots[c], a.kind, a.sid, a.src, a.rule, a.now);
        var ev2 := Events(s.ev.slots[c := e], s.ev.len + 1, c + 1);
        StoreKeepsWf(s.ev, c, e);
        assert s.log + [] == s.log;
        ForeignSlotKeepsInv(s, c, ev2, [], cut);
        if SourceFits(a.src) {
          FirstIsFind(ev2.slots, a.kind, a.sid, a.src, c);
          ForeignCountKeepsInv(State(ev2, s.log, a.now), c, r, cut);
        } else {
          assert StoredFit(ev2.slots);
        }
    }
  }

  lemma ForeignCountKeepsInv(s: State, i: nat, r: Record, cut: set<string>)
    requires Inv(s, cut) && i < |s.ev.slots| && s.ev.slots[i].kind != 0
    requires About(r, s.ev.slots[i]) && r.src in cut && r.time == s.clock
    ensures Inv(State(s.ev.(slots := s.ev.slots[i := Bumped(s.ev.slots[i])]), s.log + [r], s.clock), cut)
  {
    hide Count, Hits, Exact, Lone, Wf;
    ReplaceKeepsWf(s.ev, i, Bumped(s.ev.slots[i]));
    ForeignSlotKeepsInv(s, i, s.ev.(slots := s.ev.slots[i := Bumped(s.ev.slots[i])]), [r], cut);
  }

  function Fresh(n: nat, clock: int): State {
    State(Events(seq(n, _ => FREE), 0, 0), [], clock)
  }

  ghost predicate InOrder(clock: int, ops: seq<Op>) {
    && (forall i :: 0 <= i < |ops| ==> OpOk(ops[i]) && clock <= TimeOf(ops[i]))
    && (forall i, j :: 0 <= i < j < |ops| ==> TimeOf(ops[i]) <= TimeOf(ops[j]))
  }

  /** In every run, as far as it gets, every counter is exact for its window: whatever the
      sources, for each of them but the texts that over-long ones of the run are cut to. */
  lemma {:induction false} CountersAreExact(n: nat, clock: int, ops: seq<Op>, cut: set<string>)
    requires n > 0 && InOrder(clock, ops)
    requires forall i :: 0 <= i < |ops| ==> CutInto(ops[i], cut)
    requires Run(Fresh(n, clock), ops).Some?
    ensures Inv(Run(Fresh(n, clock), ops).value, cut)
    ensures Run(Fresh(n, clock), ops).value.clock == if ops == [] then clock else TimeOf(ops[|ops| - 1])
    decreases |ops|
  {
    hide Step;
    if ops == [] {
      CountBounds(UsedBits(Fresh(n, clock).ev.slots));
    } else {
      var k := |ops| - 1;
      CountersAreExact(n, clock, ops[..k], cut);
      var s := Run(Fresh(n, clock), ops[..k]).value;
      assert s.clock <= TimeOf(ops[k]);
      StepKeepsInv(s, ops[k], cut);
    }
  }

  lemma StepKeepsInv(s: State, op: Op, cut: set<string>)
    requires Inv(s, cut) && s.clock <= TimeOf(op) && OpOk(op) && CutInto(op, cut)
    requires Step(s, op).Some?
    ensures Inv(Step(s, op).value, cut) && Step(s, op).value.clock == TimeOf(op)
  {
    hide Inv, Handle, ExpireScan;
    match op {
      case Tick(now) => ExpireKeepsInv(s, now, cut);
      case Event(a) => EventKeepsInv(s, a, cut);
    }
  }

  /** When handling an event never returns: its source has no slot, the list is full after
      expiry, and the cursor is one past the end. */
  lemma EventHangs(ev: Events, a: Arrival)
    requires Wf(ev)
    ensures Handle(ev, a).NeverReturns? <==>
      && a.rule.max > 0
      && Find(Expired(ev, a.now).slots, a.kind, a.sid, a.src) == |ev.slots|
      && !HasFree(UsedBits(Expired(ev, a.now).slots))
      && ev.cursor == |ev.slots|
  {
    hide Count, Turns;
    SearchOutcome(UsedBits(Expired(ev, a.now).slots), ev.cursor);
  }

  /** With room for it, an event is counted exactly when its source fits the buffer. A longer
      source takes one more slot with every event and never reaches a threshold. */
  lemma CountedWhenSourceFits(ev: Events, a: Arrival)
    requires Wf(ev) && StoredFit(ev.slots)
    requires a.kind != 0 && a.rule.max > 0
    requires HasFree(UsedBits(Expired(ev, a.now).slots))
    ensures var h := Handle(ev, a);
            && h.Handled? && Wf(h.ev) && StoredFit(h.ev.slots)
            && (h.at.Some? <==> SourceFits(a.src))
            && (h.at.None? ==> h.ev.len == Expired(ev, a.now).len + 1 && !Reached(h))
  {
    hide Count, Turns, ExpireScan, Wf;
    ExpiredWf(ev, a.now);
    var ev1 := Expired(ev, a.now);
    assert |ev1.slots| > 0 by {
      CounterOf(ev1);
    }
    SearchOutcome(UsedBits(ev1.slots), ev1.cursor);
    var i := Find(ev1.slots, a.kind, a.sid, a.src);
    if i == |ev1.slots| {
      var c := Outcome(UsedBits(ev1.slots), ev1.cursor).slot;
      var e := NewSlot(ev1.slots[c], a.kind, a.sid, a.src, a.rule, a.now);
      var ev2 := Events(ev1.slots[c := e], ev1.len + 1, c + 1);
      StoreKeepsWf(ev1, c, e);
      if SourceFits(a.src) {
        assert IsFor(ev2.slots[c], a.kind, a.sid, a.src);
        var f := Find(ev2.slots, a.kind, a.sid, a.src);
        ReplaceKeepsWf(ev2, f, Bumped(ev2.slots[f]));
      } else {
        assert StoredFit(ev2.slots);
      }
    } else {
      ReplaceKeepsWf(ev1, i, Bumped(ev1.slots[i]));
    }
  }

  lemma CounterOf(ev: Events)
    requires Wf(ev)
    ensures |ev.slots| > 0
  {
  }

  const FLOOD_RULE: Rule := Rule(2, 60, 60, "")

  /** The slot an event that finds none opens: counted at once if its source fits. */
  function OpenedBy(a: Arrival): Slot {
    Slot(a.kind, a.sid, BanList.Clip(a.src), a.rule.max, if SourceFits(a.src) then 1 else 0,
         a.now, a.rule.window, a.rule.expires)
  }

  /** Events none of which finds a slot, each before the windows opened before it end. */
  predicate Flood(arrivals: seq<Arrival>) {
    && (forall i :: 0 <= i < |arrivals| ==>
          arrivals[i].kind != 0 && RuleOk(arrivals[i].rule) && arrivals[i].rule.max > 0)
    && (forall i, j :: 0 <= i < j < |arrivals| ==>
          && arrivals[i].now <= arrivals[j].now < arrivals[i].now + arrivals[i].rule.window
          && !IsFor(OpenedBy(arrivals[i]), arrivals[j].kind, arrivals[j].sid, arrivals[j].src))
  }

  function EventsOf(arrivals: seq<Arrival>): (ops: seq<Op>)
    ensures |ops| == |arrivals|
    ensures forall i :: 0 <= i < |arrivals| ==> ops[i] == Event(arrivals[i])
  {
    seq(|arrivals|, i requires 0 <= i < |arrivals| => Event(arrivals[i]))
  }

  function Flooded(n: nat, arrivals: seq<Arrival>): (slots: seq<Slot>)
    ensures |slots| == n
    ensures forall i :: 0 <= i < n ==> slots[i] == if i < |arrivals| then OpenedBy(arrivals[i]) else FREE
  {
    seq(n, i requires 0 <= i => if i < |arrivals| then OpenedBy(arrivals[i]) else FREE)
  }

  function FloodLog(arrivals: seq<Arrival>): seq<Record> {
    if arrivals == [] then [] else
      var a := arrivals[|arrivals| - 1];
      FloodLog(arrivals[..|arrivals| - 1])
      + if SourceFits(a.src) then [Record(a.kind, a.sid, a.src, a.rule, a.now)] else []
  }

  /** Where every slot is as the events before left it, an event finds none, and none is stale. */
  lemma NoneFoundNoneStale(n: nat, arrivals: seq<Arrival>, a: Arrival)
    requires |arrivals| <= n && Flood(arrivals + [a])
    ensures Find(Flooded(n, arrivals), a.kind, a.sid, a.src) == n
    ensures ExpireScan(Flooded(n, arrivals), a.now, n) == Flooded(n, arrivals)
  {
    var slots, all := Flooded(n, arrivals), arrivals + [a];
    forall i | 0 <= i < n ensures !IsFor(slots[i], a.kind, a.sid, a.src) && !Stale(slots[i], a.now) {
      if i < |arrivals| {
        assert all[i] == arrivals[i] && all[|arrivals|] == a;
      } else {
        assert all[|arrivals|] == a;
      }
    }
    FirstIsFind(slots, a.kind, a.sid, a.src, n);
    NothingStale(slots, a.now, n);
  }

  lemma FloodStep(n: nat, arrivals: seq<Arrival>, a: Arrival)
    requires |arrivals| < n && Flood(arrivals + [a])
    requires Wf(Events(Flooded(n, arrivals), |arrivals|, |arrivals|))
    ensures var k := |arrivals|;
            var after := Events(Flooded(n, arrivals + [a]), k + 1, k + 1);
            && Handle(Events(Flooded(n, arrivals), k, k), a)
            == Handled(after, if SourceFits(a.src) then Some(k) else None)
            && Wf(after)
  {
    hide Count, Find, ExpireScan, Turns;
    var k := |arrivals|;
    var ev := Events(Flooded(n, arrivals), k, k);
    NoneFoundNoneStale(n, arrivals, a);
    CounterIsCount(ev);
    assert Expired(ev, a.now) == ev;
    FindsFirstFree(UsedBits(ev.slots), k, 0);
    assert (arrivals + [a])[k] == a;
    var e := NewSlot(FREE, a.kind, a.sid, a.src, a.rule, a.now);
    var ev2 := Events(ev.slots[k := e], k + 1, k + 1);
    StoreKeepsWf(ev, k, e);
    assert forall i :: 0 <= i < n ==> !IsFor(ev.slots[i], a.kind, a.sid, a.src) by {
      FoundNone(ev.slots, a.kind, a.sid, a.src);
    }
    if SourceFits(a.src) {
      FirstIsFind(ev2.slots, a.kind, a.sid, a.src, k);
      ReplaceKeepsWf(ev2, k, Bumped(e));
      assert ev2.slots[k := Bumped(e)] == Flooded(n, arrivals + [a]);
    } else {
      FirstIsFind(ev2.slots, a.kind, a.sid, a.src, n);
      assert ev2.slots == Flooded(n, arrivals + [a]);
    }
  }

  lemma FoundNone(slots: seq<Slot>, kind: nat, sid: nat, src: string)
    requires Find(slots, kind, sid, src) == |slots|
    ensures forall i :: 0 <= i < |slots| ==> !IsFor(slots[i], kind, sid, src)
  {
  }

  lemma FloodPrefix(arrivals: seq<Arrival>, k: nat)
    requires Flood(arrivals) && k <= |arrivals|
    ensures Flood(arrivals[..k]) && EventsOf(arrivals)[..k] == EventsOf(arrivals[..k])
  {
  }

  lemma {:induction false} FloodRun(n: nat, clock: int, arrivals: seq<Arrival>)
    requires n > 0 && |arrivals| <= n && Flood(arrivals)
    ensures var k := |arrivals|;
            var s := Run(Fresh(n, clock), EventsOf(arrivals));
            && s.Some? && s.value.ev == Events(Flooded(n, arrivals), k, k) && Wf(s.value.ev)
            && s.value.log == FloodLog(arrivals)
    decreases |arrivals|
  {
    hide Count, Handle, Wf, Flood;
    if arrivals == [] {
      assert Flooded(n, []) == Fresh(n, clock).ev.slots;
      FreshIsWf(n, clock);
    } else {
      var k := |arrivals| - 1;
      FloodPrefix(arrivals, k);
      FloodRun(n, clock, arrivals[..k]);
      assert arrivals[..k] + [arrivals[k]] == arrivals;
      FloodStep(n, arrivals[..k], arrivals[k]);
      assert FloodLog(arrivals[..k]) + [] == FloodLog(arrivals[..k]);
    }
  }

  lemma FreshIsWf(n: nat, clock: int)
    requires n > 0
    ensures Wf(Fresh(n, clock).ev)
  {
    CountBounds(UsedBits(Fresh(n, clock).ev.slots));
  }

  /** The hang is reached by any n events that each open a slot: the next one that would, while
      their windows last, is searched for ever. */
  lemma {:induction false} EventHangIsReachable(n: nat, clock: int, arrivals: seq<Arrival>)
    requires n > 0 && |arrivals| == n + 1 && Flood(arrivals)
    ensures Run(Fresh(n, clock), EventsOf(arrivals)) == None
  {
    hide Count, ExpireScan, Find;
    FloodPrefix(arrivals, n);
    FloodRun(n, clock, arrivals[..n]);
    var ev, a := Events(Flooded(n, arrivals[..n]), n, n), arrivals[n];
    assert arrivals[..n] + [a] == arrivals;
    NoneFoundNoneStale(n, arrivals[..n], a);
    EventHangs(ev, a);
  }

  /** There are such events for every list size: at one time, each for a server of its own. */
  lemma {:induction false} EventHangOnEverySize(n: nat, clock: int)
    requires n > 0
    ensures exists ops :: |ops| == n + 1 && Run(Fresh(n, clock), ops) == None
  {
    hide Run;
    var arrivals := seq(n + 1, i requires 0 <= i => Arrival(3, i, "x", FLOOD_RULE, clock));
    EventHangIsReachable(n, clock, arrivals);
    assert |EventsOf(arrivals)| == n + 1;
  }

  // ----- Sources that do not fit -----

  /** Over-long sources are enough, even one: each of their events takes a slot, none is counted,
      and the one after the last free slot is searched for ever. */
  lemma {:induction false} LongSourcesFillList(n: nat, clock: int, arrivals: seq<Arrival>)
    requires n > 0 && |arrivals| == n + 1
    requires forall i :: 0 <= i <= n ==>
      && !SourceFits(arrivals[i].src)
      && arrivals[i].kind != 0 && RuleOk(arrivals[i].rule) && arrivals[i].rule.max > 0
    requires forall i, j :: 0 <= i < j <= n ==>
      arrivals[i].now <= arrivals[j].now < arrivals[i].now + arrivals[i].rule.window
    ensures Run(Fresh(n, clock), EventsOf(arrivals[..n])).Some?
    ensures Run(Fresh(n, clock), EventsOf(arrivals[..n])).value.log == []
    ensures Run(Fresh(n, clock), EventsOf(arrivals)) == None
  {
    hide Run, FloodLog;
    assert forall i :: 0 <= i <= n ==> |OpenedBy(arrivals[i]).src| < |arrivals[i].src|;
    assert Flood(arrivals);
    FloodPrefix(arrivals, n);
    FloodRun(n, clock, arrivals[..n]);
    LongLogIsEmpty(arrivals[..n]);
    EventHangIsReachable(n, clock, arrivals);
  }

  lemma {:induction false} LongLogIsEmpty(arrivals: seq<Arrival>)
    requires forall i :: 0 <= i < |arrivals| ==> !SourceFits(arrivals[i].src)
    ensures FloodLog(arrivals) == []
    decreases |arrivals|
  {
    if arrivals != [] {
      LongLogIsEmpty(arrivals[..|arrivals| - 1]);
    }
  }

  /** The text an over-long source is cut to shares its slot: a later event of that text is
      counted in a window that began before the text's first event. */
  lemma {:induction false} CutTextSharesSlot(n: nat, clock: int, a: Arrival, b: Arrival)
    requires n > 0 && !SourceFits(a.src) && a.kind != 0 && RuleOk(a.rule) && a.rule.max > 0
    requires b.kind == a.kind && b.sid == a.sid && b.src == BanList.Clip(a.src)
    requires a.now < b.now < a.now + a.rule.window
    ensures var s := Run(Fresh(n, clock), [Event(a), Event(b)]);
            && s.Some? && |s.value.ev.slots| == n
            && s.value.ev.slots[0] == OpenedBy(a).(curr := 1) && s.value.ev.slots[0].start == a.now
            && s.value.log == [Record(b.kind, b.sid, b.src, b.rule, b.now)]
  {
    hide Count, ExpireScan, Find, Wf;
    var ops := [Event(a), Event(b)];
    assert ops[..1] == EventsOf([a]);
    FloodRun(n, clock, [a]);
    LongLogIsEmpty([a]);
    var ev := Events(Flooded(n, [a]), 1, 1);
    NothingStale(ev.slots, b.now, n);
    FirstIsFind(ev.slots, b.kind, b.sid, b.src, 0);
  }

  /** An expiry can clear the younger of two slots of one over-long source and leave the stale
      one: on two slots, with an event of another source first. */
  lemma {:induction false} YoungTwinIsCleared(src: string)
    requires !SourceFits(src)
    ensures var twin := Slot(3, 1, BanList.Clip(src), 2, 0, 10, 60, 60);
            var ops := TwinOps(src);
            && Run(Fresh(2, 0), ops[..3]).Some?
            && Run(Fresh(2, 0), ops[..3]).value.ev.slots == [twin.(start := 61), twin]
            && Run(Fresh(2, 0), ops).Some?
            && Run(Fresh(2, 0), ops).value.ev.slots == [FREE, twin]
  {
    hide Hits, Count, Handle, ExpireScan, Run, Turns;
    var ops, s0 := TwinOps(src), Fresh(2, 0);
    assert s0.ev == Events([FREE, FREE], 0, 0);
    var ev1 := TwinFirst(s0.ev, ops[0].a);
    RunMore(s0, ops, 0);
    var ev2 := TwinSecond(ev1, ops[1].a);
    RunMore(s0, ops, 1);
    var ev3 := TwinThird(ev2, ops[2].a);
    RunMore(s0, ops, 2);
    TwinExpiry(ev3);
    RunMore(s0, ops, 3);
    assert ops[..4] == ops;
  }

  lemma RunMore(s0: State, ops: seq<Op>, k: nat)
    requires k < |ops| && |s0.ev.slots| > 0
    requires k > 0 ==> Run(s0, ops[..k]).Some? && |Run(s0, ops[..k]).value.ev.slots| > 0
    ensures Run(s0, ops[..k + 1]) == Step(if k > 0 then Run(s0, ops[..k]).value else s0, ops[k])
  {
    hide Step;
    assert ops[..k + 1][..k] == ops[..k];
  }

  function TwinOps(src: string): seq<Op> {
    [Event(Arrival(3, 2, "x", FLOOD_RULE, 0)), Event(Arrival(3, 1, src, FLOOD_RULE, 10)),
     Event(Arrival(3, 1, src, FLOOD_RULE, 61)), Tick(75)]
  }

  lemma TwinFirst(ev: Events, a: Arrival) returns (ev': Events)
    requires ev == Events([FREE, FREE], 0, 0) && a == Arrival(3, 2, "x", FLOOD_RULE, 0)
    ensures Handle(ev, a) == Handled(ev', Some(0))
    ensures ev'.slots == [Slot(3, 2, "x", 2, 1, 0, 60, 60), FREE] && ev'.cursor == 1
  {
    hide Count;
    NothingStale(ev.slots, 0, 2);
    FindsFirstFree(UsedBits(ev.slots), 0, 0);
    var e := Slot(3, 2, "x", 2, 0, 0, 60, 60);
    FirstIsFind(ev.slots, 3, 2, "x", 2);
    FirstIsFind([e, FREE], 3, 2, "x", 0);
    assert ev.slots[0 := e] == [e, FREE];
    ev' := Handle(ev, a).ev;
  }

  lemma TwinSecond(ev: Events, a: Arrival) returns (ev': Events)
    requires ev.slots == [Slot(3, 2, "x", 2, 1, 0, 60, 60), FREE] && ev.cursor == 1
    requires a == Arrival(3, 1, a.src, FLOOD_RULE, 10) && !SourceFits(a.src)
    ensures Handle(ev, a) == Handled(ev', None)
    ensures ev'.slots == [ev.slots[0], Slot(3, 1, BanList.Clip(a.src), 2, 0, 10, 60, 60)] && ev'.cursor == 2
  {
    hide Count;
    NothingStale(ev.slots, 10, 2);
    FindsFirstFree(UsedBits(ev.slots), 1, 0);
    var e := Slot(3, 1, BanList.Clip(a.src), 2, 0, 10, 60, 60);
    FirstIsFind(ev.slots, 3, 1, a.src, 2);
    FirstIsFind([ev.slots[0], e], 3, 1, a.src, 2);
    assert ev.slots[1 := e] == [ev.slots[0], e];
    ev' := Handle(ev, a).ev;
  }

  lemma TwinThird(ev: Events, a: Arrival) returns (ev': Events)
    requires a == Arrival(3, 1, a.src, FLOOD_RULE, 61) && !SourceFits(a.src)
    requires ev.slots == [Slot(3, 2, "x", 2, 1, 0, 60, 60), Slot(3, 1, BanList.Clip(a.src), 2, 0, 10, 60, 60)]
    requires ev.cursor == 2
    ensures Handle(ev, a) == Handled(ev', None)
    ensures ev'.slots == [ev.slots[1].(start := 61), ev.slots[1]]
  {
    hide Count;
    var twin := ev.slots[1];
    FirstIsFind(ev.slots, 3, 2, "x", 0);
    assert ExpireScan(ev.slots, 61, 1) == [FREE, twin];
    assert ExpireScan(ev.slots, 61, 2) == [FREE, twin];
    FindsFirstFree(UsedBits([FREE, twin]), 2, 0);
    FirstIsFind([FREE, twin], 3, 1, a.src, 2);
    FirstIsFind([twin.(start := 61), twin], 3, 1, a.src, 2);
    assert [FREE, twin][0 := twin.(start := 61)] == [twin.(start := 61), twin];
    ev' := Handle(ev, a).ev;
  }

  lemma TwinExpiry(ev: Events)
    requires |ev.slots| == 2 && ev.slots[1].kind != 0 && ev.slots[0] == ev.slots[1].(start := 61)
    requires !Stale(ev.slots[0], 75) && Stale(ev.slots[1], 75)
    ensures Expired(ev, 75).slots == [FREE, ev.slots[1]]
  {
    hide Count;
    assert ExpireScan(ev.slots, 75, 1) == ev.slots;
    FirstIsFind(ev.slots, ev.slots[1].kind, ev.slots[1].sid, ev.slots[1].src, 0);
  }
}
