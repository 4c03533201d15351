/** ban_handle_event of contrib/mod_ban.c on both lists: the handler in memory, and runs of
    events in which every ban on the list was earned.
*/
module BanHandling {
  import opened Basics
  import opened SlotSearch
  import opened BanEvents
  import opened BanCounting
  import BanList
  import BanRuns

  // ----- In memory -----

  /** The counting half of ban_handle_event: expire, look up, add if new, count. */
  method CountEvent(events: BanEvents.List, a: Arrival) returns (at: Option<nat>)
    requires events.Valid() && a.kind != 0
    requires Handle(events.View(), a).Handled?
    modifies events, events.entries
    ensures events.Valid()
    ensures Handle(old(events.View()), a) == Handled(events.View(), at)
    ensures at.Some? ==> at.value < events.n
  {
    hide Count, Turns, Find, ExpireScan;
    events.Expire(a.now);
    var i := events.Get(a.kind, a.sid, a.src);
    FindBound(events.View().slots, a.kind, a.sid, a.src);
    if i == events.n && a.rule.max > 0 {
      SearchOutcome(UsedBits(events.View().slots), events.nextSlot);
      var _ := events.Add(a.kind, a.sid, a.src, a.rule, a.now);
      i := events.Get(a.kind, a.sid, a.src);
      FindBound(events.View().slots, a.kind, a.sid, a.src);
    }
    if i == events.n {
      return None;
    }
    var e := events.entries[i];
    ReplaceKeepsWf(events.View(), i, Bumped(e));
    ghost var before := events.entries[..events.n];
    if e.curr < e.max {
      events.entries[i] := e.(curr := e.curr + 1);
    }
    assert events.entries[..events.n] == before[i := Bumped(e)];
    return Some(i);
  }

  /** The banning half of ban_handle_event: only if no ban exists, expire and add. */
  method AttemptBan(bans: BanList.List, a: Arrival, banKind: nat, anyServer: bool, reason: string)
    returns (attempted: bool, ghost expired: seq<BanList.Entry>)
    requires bans.Valid() && banKind != 0
    requires BanRuns.Step(bans.View(), BanFor(a, banKind, anyServer, reason)).Some?
    modifies bans, bans.entries
    ensures bans.Valid()
    ensures attempted <==>
      !BanList.Banned(old(bans.View()).slots, banKind, if anyServer then 0 else a.sid, a.src)
    ensures BanRuns.Step(old(bans.View()), BanFor(a, banKind, anyServer, reason)) == Some(bans.View())
    ensures expired == BanList.ExpireAll(old(bans.View()), a.now).slots
    ensures attempted && (exists c :: 0 <= c < bans.n && expired[c].kind == 0) ==>
      exists c :: 0 <= c < bans.n && expired[c].kind == 0
        && bans.View().slots == expired[c := bans.View().slots[c]]
        && var e := bans.View().slots[c];
           && e.kind == banKind
           && e.sid == (if anyServer then 0 else a.sid)
           && e.name == (if |a.src| < 128 then a.src else a.src[..127])
           && e.reason == (if |reason| < 128 then reason else reason[..127])
           && e.message == (if |a.rule.message| < 128 then a.rule.message else a.rule.message[..127])
           && e.expires == (if a.rule.expires > 0 then a.now + a.rule.expires else 0)
    ensures !attempted ==> bans.View() == old(bans.View())
  {
    hide Count, Turns, BanList.Lapsed;
    expired := BanList.ExpireAll(bans.View(), a.now).slots;
    var sid := if anyServer then 0 else a.sid;
    var found, _ := bans.Exists(banKind, sid, a.src);
    if !found {
      bans.Expire(a.now);
      SearchOutcome(BanList.UsedBits(bans.View().slots), bans.nextSlot);
      var ok := bans.Add(banKind, sid, a.src, reason, a.rule.expires, Some(a.rule.message), a.now);
      if ok {
        ghost var c := Outcome(BanList.UsedBits(expired), old(bans.nextSlot)).slot;
        assert expired[c].kind == 0;
        assert bans.View().slots == expired[c := bans.View().slots[c]];
      }
    }
    attempted := !found;
  }

  /** ban_handle_event, for the calls that return: the event is counted as Handle says, and a
      ban is attempted exactly when the counter has reached its maximum and no ban for the
      source exists yet. */
  method HandleEvent(events: BanEvents.List, bans: BanList.List, a: Arrival, banKind: nat,
                     anyServer: bool, reason: string)
    returns (attempted: bool, ghost expired: seq<BanList.Entry>)
    requires events.Valid() && bans.Valid()
    requires a.kind != 0 && banKind != 0
    requires Handle(events.View(), a).Handled?
    requires Reached(Handle(events.View(), a)) ==>
      BanRuns.Step(bans.View(), BanFor(a, banKind, anyServer, reason)).Some?
    modifies events, events.entries, bans, bans.entries
    ensures events.Valid() && bans.Valid()
    ensures var h := Handle(old(events.View()), a);
            && h.ev == events.View()
            && (attempted <==>
                && Reached(h)
                && !BanList.Banned(old(bans.View()).slots, banKind, if anyServer then 0 else a.sid, a.src))
            && (if Reached(h)
                then BanRuns.Step(old(bans.View()), BanFor(a, banKind, anyServer, reason)) == Some(bans.View())
                else bans.View() == old(bans.View()))
    ensures expired == BanList.ExpireAll(old(bans.View()), a.now).slots
    ensures attempted && (exists c :: 0 <= c < bans.n && expired[c].kind == 0) ==>
      exists c :: 0 <= c < bans.n && expired[c].kind == 0
        && bans.View().slots == expired[c := bans.View().slots[c]]
        && var e := bans.View().slots[c];
           && e.kind == banKind
           && e.sid == (if anyServer then 0 else a.sid)
           && e.name == (if |a.src| < 128 then a.src else a.src[..127])
           && e.reason == (if |reason| < 128 then reason else reason[..127])
           && e.message == (if |a.rule.message| < 128 then a.rule.message else a.rule.message[..127])
           && e.expires == (if a.rule.expires > 0 then a.now + a.rule.expires else 0)
    ensures !attempted ==> bans.View() == old(bans.View())
  {
    hide Count, Turns, Handle, BanRuns.Step, BanList.Wf, Wf, BanList.Banned, BanList.Lapsed;
    expired := BanList.ExpireAll(bans.View(), a.now).slots;
    var at := CountEvent(events, a);
    attempted := false;
    if at.Some? && events.entries[at.value].curr >= events.entries[at.value].max {
      attempted, expired := AttemptBan(bans, a, banKind, anyServer, reason);
    }
  }

  /** The ban an event asks for. */
  function BanFor(a: Arrival, banKind: nat, anyServer: bool, reason: string): BanRuns.Op {
    BanRuns.AutoBan(banKind, if anyServer then 0 else a.sid, a.src, reason, a.rule.expires,
                    Some(a.rule.message), a.now)
  }

  // ----- Runs over both lists -----

  /** An event and what a ban for it would be; the timer, or the start of a control request, which
      expires both lists; or what a control request then does to the ban list. */
  datatype Happening =
    | Occurs(a: Arrival, banKind: nat, anyServer: bool, reason: string)
    | Elapses(now: int)
    | Requests(op: BanRuns.Op)

  predicate HappeningOk(h: Happening) {
    h.Requests? ==> h.op.AdminBan? || h.op.Permit?
  }

  /** What a happening does to the event list; a request does nothing to it. */
  function EventOf(h: Happening): Op
    requires !h.Requests?
  {
    match h
    case Occurs(a, _, _, _) => Event(a)
    case Elapses(now) => Tick(now)
  }

  function EventSide(hs: seq<Happening>): (ops: seq<Op>)
    decreases |hs|
  {
    if hs == [] then [] else
      var h := hs[|hs| - 1];
      EventSide(hs[..|hs| - 1]) + if h.Requests? then [] else [EventOf(h)]
  }

  datatype Joint = Joint(s: State, bans: BanList.Bans)

  predicate JointOk(j: Joint) {
    |j.s.ev.slots| > 0 && |j.bans.slots| > 0
  }

  function EventsAfter(s: State, h: Happening): Option<State>
    requires |s.ev.slots| > 0
  {
    if h.Requests? then Some(s) else Step(s, EventOf(h))
  }

  /** The change to the ban list, if any. */
  function BanOp(ev: Events, h: Happening): Option<BanRuns.Op>
    requires |ev.slots| > 0
  {
    match h
    case Elapses(now) => Some(BanRuns.Lapse(now))
    case Requests(op) => Some(op)
    case Occurs(a, banKind, anyServer, reason) =>
      if Reached(Handle(ev, a)) then Some(BanFor(a, banKind, anyServer, reason)) else None
  }

  function BansAfter(bans: BanList.Bans, op: Option<BanRuns.Op>): Option<BanList.Bans>
    requires |bans.slots| > 0
  {
    if op.None? then Some(bans) else BanRuns.Step(bans, op.value)
  }

  /** Both lists after one happening; None when it never returns. */
  function JointStep(j: Joint, h: Happening): Option<Joint>
    requires JointOk(j)
  {
    match EventsAfter(j.s, h)
    case None => None
    case Some(s) =>
      match BansAfter(j.bans, BanOp(j.s.ev, h))
      case None => None
      case Some(bans) => Some(Joint(s, bans))
  }

  /** Two empty lists and the time. */
  datatype Setup = Setup(events: nat, bans: nat, clock: int)

  predicate SetupOk(z: Setup) {
    z.events > 0 && z.bans > 0
  }

  function JointRun(z: Setup, hs: seq<Happening>): Option<Joint>
    requires SetupOk(z)
    decreases |hs|
  {
    if hs == [] then Some(Joint(Fresh(z.events, z.clock), BanRuns.Fresh(z.bans))) else
      match JointRun(z, hs[..|hs| - 1])
      case None => None
      case Some(j) => if JointOk(j) then JointStep(j, hs[|hs| - 1]) else None
  }

  lemma {:induction false} EventSideOfRun(z: Setup, hs: seq<Happening>)
    requires SetupOk(z) && JointRun(z, hs).Some?
    ensures Run(Fresh(z.events, z.clock), EventSide(hs)) == Some(JointRun(z, hs).value.s)
    decreases |hs|
  {
    hide Step, BansAfter, BanOp, Handle;
    if hs != [] {
      var k := |hs| - 1;
      EventSideOfRun(z, hs[..k]);
      if hs[k].Requests? {
        assert EventSide(hs) == EventSide(hs[..k]);
      } else {
        assert EventSide(hs)[..|EventSide(hs[..k])|] == EventSide(hs[..k]);
      }
    }
  }

  /** The i-th happening was a control request, and the entry is the ban it asked for. */
  predicate RequestedAt(hs: seq<Happening>, e: BanList.Entry, i: nat) {
    && i < |hs| && hs[i].Requests? && hs[i].op.AdminBan?
    && e.kind == hs[i].op.kind && e.sid == hs[i].op.sid
    && e.name == (if |hs[i].op.name| < 128 then hs[i].op.name else hs[i].op.name[..127])
    && (|hs[i].op.reason| < 128 ==> e.reason == hs[i].op.reason)
    && (match hs[i].op.message case None => e.message == "" case Some(t) => |t| < 128 ==> e.message == t)
    && e.expires == (if hs[i].op.lasts > 0 then hs[i].op.now + hs[i].op.lasts else 0)
  }

  /** The i-th happening was an event of a source that had reached its maximum, counted over the
      log since its window began; the entry is the ban it asked for. */
  ghost predicate EarnedAt(z: Setup, hs: seq<Happening>, cut: set<string>, e: BanList.Entry, i: nat)
    requires SetupOk(z)
  {
    && i < |hs| && hs[i].Occurs?
    && JointRun(z, hs[..i]).Some? && JointRun(z, hs[..i + 1]).Some?
    && var j := JointRun(z, hs[..i]).value;
       && |j.s.ev.slots| > 0
       && e.kind == hs[i].banKind
       && e.sid == (if hs[i].anyServer then 0 else hs[i].a.sid)
       && e.name == hs[i].a.src
       && (|hs[i].reason| < 128 ==> e.reason == hs[i].reason)
       && (|hs[i].a.rule.message| < 128 ==> e.message == hs[i].a.rule.message)
       && e.expires == hs[i].a.now + hs[i].a.rule.expires
       && Reached(Handle(j.s.ev, hs[i].a))
       && (hs[i].a.src !in cut ==> CrossedIn(Handle(j.s.ev, hs[i].a), JointRun(z, hs[..i + 1]).value.s.log))
  }

  ghost predicate Accounted(z: Setup, hs: seq<Happening>, cut: set<string>, e: BanList.Entry, i: nat)
    requires SetupOk(z)
  {
    RequestedAt(hs, e, i) || EarnedAt(z, hs, cut, e, i)
  }

  /** Every ban entry after a step was there before, or is the one the step asked for. */
  lemma NewEntries(bans: BanList.Bans, op: BanRuns.Op, k: nat)
    requires |bans.slots| > 0 && BanRuns.Step(bans, op).Some?
    requires k < |BanRuns.Step(bans, op).value.slots| && BanRuns.Step(bans, op).value.slots[k].kind != 0
    ensures var e := BanRuns.Step(bans, op).value.slots[k];
            e in bans.slots || ((op.AdminBan? || op.AutoBan?) && e == BanRuns.EntryOf(op))
  {
    hide Turns, Count, BanList.Lapsed, BanList.Permitted;
    var e := BanRuns.Step(bans, op).value.slots[k];
    match op
    case Lapse(_) =>
      assert k < |bans.slots| && e == bans.slots[k];
    case Permit(_, _, _) =>
      assert k < |bans.slots| && e == bans.slots[k];
    case AdminBan(_, _, _, _, _, _, _) =>
      SearchOutcome(BanList.UsedBits(bans.slots), bans.cursor);
      assert k < |bans.slots|;
      assert e == bans.slots[k] || e == BanRuns.EntryOf(op);
    case AutoBan(_, _, _, _, _, _, now) =>
      var b := BanList.ExpireAll(bans, now);
      SearchOutcome(BanList.UsedBits(b.slots), b.cursor);
      assert k < |bans.slots|;
      assert e == bans.slots[k] || e == BanRuns.EntryOf(op);
  }

  ghost predicate WellTimed(clock: int, hs: seq<Happening>, cut: set<string>) {
    && (forall i :: 0 <= i < |hs| ==> HappeningOk(hs[i]))
    && InOrder(clock, EventSide(hs))
    && forall i :: 0 <= i < |EventSide(hs)| ==> CutInto(EventSide(hs)[i], cut)
  }

  lemma WellTimedPrefix(clock: int, hs: seq<Happening>, cut: set<string>)
    requires hs != [] && WellTimed(clock, hs, cut)
    ensures WellTimed(clock, hs[..|hs| - 1], cut)
  {
    var before := EventSide(hs[..|hs| - 1]);
    assert forall i :: 0 <= i < |before| ==> before[i] == EventSide(hs)[i];
  }

  /** The last happening of a run, when it is an event that reached its maximum. */
  lemma {:induction false} LastIsEarned(z: Setup, hs: seq<Happening>, cut: set<string>, e: BanList.Entry)
    requires SetupOk(z) && hs != [] && WellTimed(z.clock, hs, cut) && JointRun(z, hs).Some?
    requires JointRun(z, hs[..|hs| - 1]).Some?
    requires var h := hs[|hs| - 1];
      var j := JointRun(z, hs[..|hs| - 1]).value;
      && h.Occurs? && |j.s.ev.slots| > 0 && Reached(Handle(j.s.ev, h.a))
      && e == BanRuns.EntryOf(BanFor(h.a, h.banKind, h.anyServer, h.reason))
    ensures EarnedAt(z, hs, cut, e, |hs| - 1)
  {
    hide Handle, BanRuns.Step, Inv, Reached, CrossedIn, WellTimed, EventSide;
    var k := |hs| - 1;
    var h, j := hs[k], JointRun(z, hs[..k]).value;
    assert hs[..k + 1] == hs;
    InvBeforeLast(z, hs, cut);
    EventKeepsInv(j.s, h.a, cut);
    ReachedIsCounted(Handle(j.s.ev, h.a));
  }

  /** Before the last event of a run every counter is exact, and the event is in order. */
  lemma InvBeforeLast(z: Setup, hs: seq<Happening>, cut: set<string>)
    requires SetupOk(z) && hs != [] && WellTimed(z.clock, hs, cut) && hs[|hs| - 1].Occurs?
    requires JointRun(z, hs[..|hs| - 1]).Some?
    ensures var s, a := JointRun(z, hs[..|hs| - 1]).value.s, hs[|hs| - 1].a;
            Inv(s, cut) && s.clock <= a.now && OpOk(Event(a)) && CutInto(Event(a), cut)
  {
    hide JointRun, Run, Inv;
    var before, k := hs[..|hs| - 1], |EventSide(hs)| - 1;
    WellTimedPrefix(z.clock, hs, cut);
    EventSideOfRun(z, before);
    CountersAreExact(z.events, z.clock, EventSide(before), cut);
    assert EventSide(hs)[k] == Event(hs[|hs| - 1].a);
    assert k > 0 ==> EventSide(before)[k - 1] == EventSide(hs)[k - 1];
  }

  /** In every run, an event that brings its source to its maximum within its window leaves that
      source banned, unless every slot is still in use after the expiry. */
  lemma {:induction false} ReachedSourceIsBanned(z: Setup, hs: seq<Happening>, cut: set<string>)
    requires SetupOk(z) && hs != [] && WellTimed(z.clock, hs, cut) && JointRun(z, hs).Some?
    requires JointRun(z, hs[..|hs| - 1]).Some? && JointOk(JointRun(z, hs[..|hs| - 1]).value)
    requires var h, j := hs[|hs| - 1], JointRun(z, hs[..|hs| - 1]).value;
      && h.Occurs? && h.banKind != 0 && h.a.src !in cut && SourceFits(h.a.src)
      && CrossedIn(Handle(j.s.ev, h.a), JointRun(z, hs).value.s.log)
      && exists c :: 0 <= c < |j.bans.slots| && BanList.ExpireAll(j.bans, h.a.now).slots[c].kind == 0
    ensures var h, slots := hs[|hs| - 1], JointRun(z, hs).value.bans.slots;
      exists k :: 0 <= k < |slots| && slots[k].kind == h.banKind && slots[k].name == h.a.src
        && (slots[k].sid == 0 || slots[k].sid == if h.anyServer then 0 else h.a.sid)
  {
    hide Handle, Inv, Reached, CrossedIn, WellTimed, EventSide, Count, Turns, BanList.Lapsed;
    var h, j := hs[|hs| - 1], JointRun(z, hs[..|hs| - 1]).value;
    InvBeforeLast(z, hs, cut);
    EventKeepsInv(j.s, h.a, cut);
    AutoBanBans(j.bans, BanFor(h.a, h.banKind, h.anyServer, h.reason));
  }

  lemma AutoBanBans(bans: BanList.Bans, op: BanRuns.Op)
    requires |bans.slots| > 0 && op.AutoBan? && op.kind != 0 && SourceFits(op.name)
    requires BanRuns.Step(bans, op).Some?
    requires exists c :: 0 <= c < |bans.slots| && BanList.ExpireAll(bans, op.now).slots[c].kind == 0
    ensures var slots := BanRuns.Step(bans, op).value.slots;
      exists k :: 0 <= k < |slots| && slots[k].kind == op.kind && slots[k].name == op.name
        && (slots[k].sid == 0 || slots[k].sid == op.sid)
  {
    hide Count, Turns, BanList.Lapsed;
    if BanList.Banned(bans.slots, op.kind, op.sid, op.name) {
      var k :| 0 <= k < |bans.slots| && BanList.BansMatch(bans.slots[k], op.kind, op.sid, op.name);
      assert bans.slots[k].kind == op.kind && bans.slots[k].name == op.name;
    } else {
      var b := BanList.ExpireAll(bans, op.now);
      var c :| 0 <= c < |bans.slots| && b.slots[c].kind == 0;
      assert !BanList.UsedBits(b.slots)[c];
      SearchOutcome(BanList.UsedBits(b.slots), b.cursor);
      var k := Outcome(BanList.UsedBits(b.slots), b.cursor).slot;
      assert BanRuns.Step(bans, op).value.slots[k] == BanRuns.EntryOf(op);
    }
  }

  lemma ReachedIsCounted(h: Handled)
    requires Reached(h)
    ensures h.at.Some?
  {
  }

  /** In every run of events, timers and control requests over both lists, every entry of the ban
      list was put there by a request, or by an event whose source had reached its maximum within
      its window. */
  lemma {:induction false} EveryBanIsAccountedFor(z: Setup, hs: seq<Happening>, cut: set<string>, k: nat)
    requires SetupOk(z) && WellTimed(z.clock, hs, cut) && JointRun(z, hs).Some?
    requires var bans := JointRun(z, hs).value.bans; k < |bans.slots| && bans.slots[k].kind != 0
    ensures exists i :: Accounted(z, hs, cut, JointRun(z, hs).value.bans.slots[k], i)
    decreases |hs|
  {
    hide Handle, BanRuns.Step, Step, EarnedAt, Reached, InOrder;
    var last := |hs| - 1;
    var j := JointRun(z, hs[..last]).value;
    var e := JointRun(z, hs).value.bans.slots[k];
    var op := BanOp(j.s.ev, hs[last]);
    if op.Some? {
      NewEntries(j.bans, op.value, k);
    }
    if e in j.bans.slots {
      var k' :| 0 <= k' < |j.bans.slots| && j.bans.slots[k'] == e;
      WellTimedPrefix(z.clock, hs, cut);
      EveryBanIsAccountedFor(z, hs[..last], cut, k');
      var i: nat :| Accounted(z, hs[..last], cut, e, i);
      AccountedStays(z, hs, cut, e, i);
    } else {
      assert HappeningOk(hs[last]);
      if hs[last].Occurs? {
        LastIsEarned(z, hs, cut, e);
      }
      assert Accounted(z, hs, cut, e, last);
    }
  }

  lemma AccountedStays(z: Setup, hs: seq<Happening>, cut: set<string>, e: BanList.Entry, i: nat)
    requires SetupOk(z) && hs != [] && Accounted(z, hs[..|hs| - 1], cut, e, i)
    ensures Accounted(z, hs, cut, e, i)
  {
    hide Handle, Reached, CrossedIn, JointRun;
    var k := |hs| - 1;
    if !RequestedAt(hs[..k], e, i) {
      assert hs[..k][..i] == hs[..i] && hs[..k][..i + 1] == hs[..i + 1];
    }
  }
}
