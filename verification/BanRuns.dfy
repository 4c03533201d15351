/** Whole runs of the ban list: guarded adds, removals and expiries in any order refine a
    map keyed by kind, server and name.
*/
module BanRuns {
  import opened Basics
  import opened SlotSearch
  import opened BanList

  datatype Key = Key(kind: nat, sid: nat, name: string)

  datatype Payload = Payload(reason: string, message: string, expires: int)

  function KeyOf(e: Entry): Key {
    Key(e.kind, e.sid, e.name)
  }

  function PayloadOf(e: Entry): Payload {
    Payload(e.reason, e.message, e.expires)
  }

  type BanMap = map<Key, Payload>

  /** The map a slot sequence stands for. */
  function Abs(slots: seq<Entry>): BanMap {
    if slots == [] then map[]
    else if slots[0].kind == 0 then Abs(slots[1..])
    else Abs(slots[1..])[KeyOf(slots[0]) := PayloadOf(slots[0])]
  }

  predicate Distinct(slots: seq<Entry>) {
    forall i, j :: 0 <= i < j < |slots| && slots[i].kind != 0 && slots[j].kind != 0 ==>
      KeyOf(slots[i]) != KeyOf(slots[j])
  }

  predicate Holds(slots: seq<Entry>, k: Key) {
    exists i :: 0 <= i < |slots| && slots[i].kind != 0 && KeyOf(slots[i]) == k
  }

  lemma {:induction false} AbsKeys(slots: seq<Entry>, k: Key)
    ensures k in Abs(slots) <==> Holds(slots, k)
  {
    if slots != [] {
      AbsKeys(slots[1..], k);
      if Holds(slots[1..], k) {
        var i :| 0 <= i < |slots[1..]| && slots[1..][i].kind != 0 && KeyOf(slots[1..][i]) == k;
        assert slots[i + 1].kind != 0 && KeyOf(slots[i + 1]) == k;
      }
      if Holds(slots, k) {
        var i :| 0 <= i < |slots| && slots[i].kind != 0 && KeyOf(slots[i]) == k;
        if i > 0 {
          assert slots[1..][i - 1].kind != 0 && KeyOf(slots[1..][i - 1]) == k;
        }
      }
    }
  }

  lemma {:induction false} AbsValue(slots: seq<Entry>, i: nat)
    requires Distinct(slots) && i < |slots| && slots[i].kind != 0
    ensures KeyOf(slots[i]) in Abs(slots) && Abs(slots)[KeyOf(slots[i])] == PayloadOf(slots[i])
  {
    if i > 0 {
      assert slots[1..][i - 1] == slots[i];
      AbsValue(slots[1..], i - 1);
    }
  }

  /** With distinct keys the map has as many entries as there are used slots. */
  lemma {:induction false} AbsSize(slots: seq<Entry>)
    requires Distinct(slots)
    ensures |Abs(slots)| == Count(UsedBits(slots))
  {
    if slots != [] {
      var rest := slots[1..];
      AbsSize(rest);
      assert UsedBits(slots)[1..] == UsedBits(rest);
      if slots[0].kind != 0 {
        AbsKeys(rest, KeyOf(slots[0]));
        assert forall i :: 0 <= i < |rest| ==> rest[i] == slots[i + 1];
        assert Abs(slots).Keys == Abs(rest).Keys + {KeyOf(slots[0])};
        assert |Abs(slots).Keys| == |Abs(rest).Keys| + 1;
      }
    }
  }

  /** Two slot sequences with distinct keys stand for maps related as their slots are. */
  lemma AbsAgree(slots: seq<Entry>, m: BanMap)
    requires Distinct(slots)
    requires forall k :: k in m <==> Holds(slots, k)
    requires forall i :: 0 <= i < |slots| && slots[i].kind != 0 && KeyOf(slots[i]) in m ==>
      m[KeyOf(slots[i])] == PayloadOf(slots[i])
    ensures Abs(slots) == m
  {
    hide Abs;
    forall k ensures k in Abs(slots) <==> k in m {
      AbsKeys(slots, k);
    }
    forall k | k in m ensures Abs(slots)[k] == m[k] {
      var i :| 0 <= i < |slots| && slots[i].kind != 0 && KeyOf(slots[i]) == k;
      AbsValue(slots, i);
    }
  }

  // ----- Each operation on the map -----

  /** ban_list_exists succeeds exactly when the map has the name for all servers or for this one. */
  lemma ExistsIsMapLookup(slots: seq<Entry>, kind: nat, sid: nat, name: string)
    requires kind != 0
    ensures Banned(slots, kind, sid, name) <==>
      Key(kind, 0, name) in Abs(slots) || Key(kind, sid, name) in Abs(slots)
  {
    hide Abs;
    AbsKeys(slots, Key(kind, 0, name));
    AbsKeys(slots, Key(kind, sid, name));
    if Banned(slots, kind, sid, name) {
      var i :| 0 <= i < |slots| && BansMatch(slots[i], kind, sid, name);
      assert KeyOf(slots[i]) == Key(kind, slots[i].sid, name);
    }
    if Holds(slots, Key(kind, 0, name)) {
      var i :| 0 <= i < |slots| && slots[i].kind != 0 && KeyOf(slots[i]) == Key(kind, 0, name);
      assert BansMatch(slots[i], kind, sid, name);
    }
    if Holds(slots, Key(kind, sid, name)) {
      var i :| 0 <= i < |slots| && slots[i].kind != 0 && KeyOf(slots[i]) == Key(kind, sid, name);
      assert BansMatch(slots[i], kind, sid, name);
    }
  }

  /** Filling a free slot adds one map entry; keys stay distinct exactly when the key is new. */
  lemma StoreIsMapUpdate(slots: seq<Entry>, c: nat, e: Entry)
    requires Distinct(slots) && c < |slots| && slots[c].kind == 0 && e.kind != 0
    ensures Distinct(slots[c := e]) <==> KeyOf(e) !in Abs(slots)
    ensures KeyOf(e) !in Abs(slots) ==> Abs(slots[c := e]) == Abs(slots)[KeyOf(e) := PayloadOf(e)]
  {
    hide Abs;
    var slots' := slots[c := e];
    AbsKeys(slots, KeyOf(e));
    if KeyOf(e) in Abs(slots) {
      var i :| 0 <= i < |slots| && slots[i].kind != 0 && KeyOf(slots[i]) == KeyOf(e);
      assert KeyOf(slots'[i]) == KeyOf(slots'[c]);
    } else {
      var m := Abs(slots)[KeyOf(e) := PayloadOf(e)];
      forall k ensures k in m <==> Holds(slots', k) {
        AbsKeys(slots, k);
        if Holds(slots, k) {
          var i :| 0 <= i < |slots| && slots[i].kind != 0 && KeyOf(slots[i]) == k;
          assert slots'[i] == slots[i];
        }
        if k == KeyOf(e) {
          assert slots'[c].kind != 0 && KeyOf(slots'[c]) == k;
        }
        if Holds(slots', k) {
          var i :| 0 <= i < |slots'| && slots'[i].kind != 0 && KeyOf(slots'[i]) == k;
          assert i == c || slots'[i] == slots[i];
        }
      }
      forall i | 0 <= i < |slots'| && slots'[i].kind != 0
        ensures KeyOf(slots'[i]) in m && m[KeyOf(slots'[i])] == PayloadOf(slots'[i])
      {
        if i != c {
          AbsValue(slots, i);
        }
      }
      AbsAgree(slots', m);
    }
  }

  predicate Remains(slots: seq<Entry>, gone: set<int>, k: Key) {
    exists i :: 0 <= i < |slots| && slots[i].kind != 0 && KeyOf(slots[i]) == k && i !in gone
  }

  lemma ClearedKey(slots: seq<Entry>, gone: set<int>, k: Key)
    ensures k in Abs(Clear(slots, gone)) <==> Remains(slots, gone, k)
  {
    hide Abs, KeyOf;
    var slots' := Clear(slots, gone);
    AbsKeys(slots', k);
    if Remains(slots, gone, k) {
      var i :| 0 <= i < |slots| && slots[i].kind != 0 && KeyOf(slots[i]) == k && i !in gone;
      assert slots'[i] == slots[i];
    }
    if Holds(slots', k) {
      var i :| 0 <= i < |slots'| && slots'[i].kind != 0 && KeyOf(slots'[i]) == k;
      assert i !in gone && slots'[i] == slots[i];
    }
  }

  lemma ClearedValue(slots: seq<Entry>, gone: set<int>, k: Key)
    requires Distinct(slots) && Distinct(Clear(slots, gone)) && k in Abs(Clear(slots, gone))
    ensures k in Abs(slots) && Abs(Clear(slots, gone))[k] == Abs(slots)[k]
  {
    hide Abs, KeyOf, PayloadOf, Distinct;
    var slots' := Clear(slots, gone);
    ClearedKey(slots, gone, k);
    var i :| 0 <= i < |slots| && slots[i].kind != 0 && KeyOf(slots[i]) == k && i !in gone;
    assert slots'[i] == slots[i];
    AbsValue(slots', i);
    AbsValue(slots, i);
  }

  /** Clearing slots restricts the map to the keys that are left. */
  lemma ClearIsMapRestriction(slots: seq<Entry>, gone: set<int>)
    requires Distinct(slots)
    ensures Distinct(Clear(slots, gone))
    ensures forall k :: k in Abs(Clear(slots, gone)) <==> Remains(slots, gone, k)
    ensures forall k :: k in Abs(Clear(slots, gone)) ==>
      k in Abs(slots) && Abs(Clear(slots, gone))[k] == Abs(slots)[k]
  {
    hide Abs, KeyOf, Remains;
    var slots' := Clear(slots, gone);
    forall k ensures k in Abs(slots') <==> Remains(slots, gone, k) {
      ClearedKey(slots, gone, k);
    }
    forall k | k in Abs(slots') ensures k in Abs(slots) && Abs(slots')[k] == Abs(slots)[k] {
      ClearedValue(slots, gone, k);
    }
  }

  predicate KeyPermitted(k: Key, kind: nat, sid: nat, name: Option<string>) {
    k.kind == kind && (sid == 0 || k.sid == sid) && (name.Some? ==> k.name == name.value)
  }

  /** ban_list_remove deletes exactly the matching keys. */
  lemma RemoveIsMapDeletion(slots: seq<Entry>, kind: nat, sid: nat, name: Option<string>)
    requires Distinct(slots) && kind != 0
    ensures Abs(Clear(slots, Permitted(slots, kind, sid, name)))
         == map k | k in Abs(slots) && !KeyPermitted(k, kind, sid, name) :: Abs(slots)[k]
  {
    hide Abs;
    var gone := Permitted(slots, kind, sid, name);
    ClearIsMapRestriction(slots, gone);
    forall i | 0 <= i < |slots| && slots[i].kind != 0
      ensures i in gone <==> KeyPermitted(KeyOf(slots[i]), kind, sid, name)
    {
      if PermitMatch(slots[i], kind, sid, name) && sid != 0 && name.Some? {
        forall j | 0 <= j < i ensures !PermitMatch(slots[j], kind, sid, name) {
        }
      }
    }
    forall k ensures k in Abs(Clear(slots, gone)) <==> k in Abs(slots) && !KeyPermitted(k, kind, sid, name) {
      AbsKeys(slots, k);
    }
  }

  // ----- Runs -----

  datatype Op =
    /** One name of a control request, which expires first: checks for a duplicate and for room,
        then adds. */
    | AdminBan(kind: nat, sid: nat, name: string, reason: string, lasts: nat,
               message: Option<string>, now: int)
    /** An event's ban: checks for a duplicate, expires, then adds without looking for room. */
    | AutoBan(kind: nat, sid: nat, name: string, reason: string, lasts: nat,
              message: Option<string>, now: int)
    | Permit(kind: nat, sid: nat, target: Option<string>)
    | Lapse(now: int)

  predicate OpOk(op: Op) {
    op.Lapse? || op.kind != 0
  }

  /** Names as long as the buffer are stored cut short, and are never found again. */
  predicate Fits(op: Op) {
    (op.AdminBan? || op.AutoBan?) ==> |op.name| < BAN_STRING_MAXSZ
  }

  function EntryOf(op: Op): Entry
    requires op.AdminBan? || op.AutoBan?
  {
    NewEntry(op.kind, op.sid, op.name, op.reason, op.lasts, op.message, op.now)
  }

  function AfterAdd(r: AddResult): Option<Bans> {
    match r
    case Stored(b) => Some(b)
    case NoSpace(b) => Some(b)
    case Hangs => None
  }

  /** One operation; None when it never returns. */
  function Step(b: Bans, op: Op): Option<Bans>
    requires |b.slots| > 0
  {
    match op
    case AdminBan(kind, sid, name, _, _, _, _) =>
      if Banned(b.slots, kind, sid, name) || b.len >= |b.slots| then Some(b) else AfterAdd(AddTo(b, EntryOf(op)))
    case AutoBan(kind, sid, name, _, _, _, now) =>
      if Banned(b.slots, kind, sid, name) then Some(b) else AfterAdd(AddTo(ExpireAll(b, now), EntryOf(op)))
    case Permit(kind, sid, name) => Some(RemoveFrom(b, kind, sid, name))
    case Lapse(now) => Some(ExpireAll(b, now))
  }

  function Run(b: Bans, ops: seq<Op>): Option<Bans>
    requires |b.slots| > 0
    decreases |ops|
  {
    if ops == [] then Some(b) else
      match Run(b, ops[..|ops| - 1])
      case None => None
      case Some(b') => if |b'.slots| > 0 then Step(b', ops[|ops| - 1]) else None
  }

  function Fresh(n: nat): Bans {
    Bans(seq(n, _ => FREE), 0, 0)
  }

  /** The invariant of every run. */
  predicate Inv(b: Bans) {
    Wf(b) && Distinct(b.slots) && b.len == |Abs(b.slots)|
  }

  // ----- The abstract machine -----

  predicate MapExpired(p: Payload, now: int) {
    p.expires != 0 && p.expires <= now
  }

  /** Expiry on the map: nothing expired stays, nothing is invented, and a non-empty name
      that no expired entry of its kind shares is kept. */
  ghost predicate MapLapse(m: BanMap, now: int, m': BanMap) {
    && (forall k :: k in m' ==> k in m && m'[k] == m[k] && !MapExpired(m[k], now))
    && (forall k :: k in m && k.name != "" && !MapExpired(m[k], now)
                    && (forall j :: j in m && j.kind == k.kind && j.name == k.name ==> !MapExpired(m[j], now))
                    ==> k in m')
  }

  predicate MapBanned(m: BanMap, kind: nat, sid: nat, name: string) {
    Key(kind, 0, name) in m || Key(kind, sid, name) in m
  }

  /** What a ban stores: texts cut to their buffers, and an absolute expiry unless permanent. */
  function MapPayload(reason: string, message: Option<string>, lasts: nat, now: int): Payload {
    Payload(Clip(reason), match message case Some(text) => Clip(text) case None => "",
            if lasts == 0 then 0 else now + lasts)
  }

  // ----- The steps keep the invariant and follow the map -----

  lemma InvSize(b: Bans)
    requires Wf(b) && Distinct(b.slots)
    ensures Inv(b)
  {
    AbsSize(b.slots);
  }

  /** A guarded add of a name that fits: the map gains the key unless it is full. */
  lemma AddFollowsMap(b: Bans, e: Entry)
    requires Inv(b) && e.kind != 0 && KeyOf(e) !in Abs(b.slots)
    requires !AddTo(b, e).Hangs?
    ensures Inv(AddTo(b, e).bans) && |AddTo(b, e).bans.slots| == |b.slots|
    ensures Abs(AddTo(b, e).bans.slots)
         == if |Abs(b.slots)| == |b.slots| then Abs(b.slots) else Abs(b.slots)[KeyOf(e) := PayloadOf(e)]
  {
    hide Abs, Turns;
    var used := UsedBits(b.slots);
    SearchOutcome(used, b.cursor);
    CountBounds(used);
    match Outcome(used, b.cursor)
    case Found(c) =>
      StoreKeepsWf(b, c, e);
      StoreIsMapUpdate(b.slots, c, e);
      InvSize(AddTo(b, e).bans);
    case Full(c) =>
  }

  lemma LenBound(b: Bans)
    requires Wf(b)
    ensures b.len <= |b.slots|
    ensures b.len < |b.slots| <==> HasFree(UsedBits(b.slots))
  {
    CountBounds(UsedBits(b.slots));
  }

  lemma FreshIsEmpty(n: nat)
    requires n > 0
    ensures Inv(Fresh(n)) && Abs(Fresh(n).slots) == map[]
  {
    var b := Fresh(n);
    CountBounds(UsedBits(b.slots));
    forall k ensures k !in Abs(b.slots) {
      AbsKeys(b.slots, k);
    }
    InvSize(b);
  }

  // ----- When an operation never returns -----

  /** Exactly when a step hangs: an event's ban that is not a duplicate, on a list still
      full after expiry, entered with the cursor one past the end. */
  lemma {:induction false} StepHangs(b: Bans, op: Op)
    requires Wf(b) && OpOk(op)
    ensures Step(b, op).None? <==>
      op.AutoBan? && !Banned(b.slots, op.kind, op.sid, op.name)
      && !HasFree(UsedBits(ExpireAll(b, op.now).slots)) && b.cursor == |b.slots|
  {
    hide Turns, Count, Lapsed;
    match op
    case AdminBan(_, _, _, _, _, _, _) =>
      LenBound(b);
      SearchOutcome(UsedBits(b.slots), b.cursor);
    case AutoBan(_, _, _, _, _, _, now) =>
      SearchOutcome(UsedBits(ExpireAll(b, now).slots), b.cursor);
    case Permit(_, _, _) =>
    case Lapse(_) =>
  }

  /** Whatever the names, a step that returns keeps the list well-formed. */
  lemma StepKeepsWf(b: Bans, op: Op)
    requires Wf(b) && OpOk(op)
    requires Step(b, op).Some?
    ensures Wf(Step(b, op).value) && |Step(b, op).value.slots| == |b.slots|
  {
    hide Turns, Count, Lapsed;
    match op
    case AdminBan(_, _, _, _, _, _, _) =>
      if Step(b, op).value != b {
        AddKeepsWf(b, EntryOf(op));
      }
    case AutoBan(_, _, _, _, _, _, now) =>
      if Step(b, op).value != b {
        AddKeepsWf(ExpireAll(b, now), EntryOf(op));
      }
    case Permit(_, _, _) =>
    case Lapse(_) =>
  }

  lemma AddKeepsWf(b: Bans, e: Entry)
    requires Wf(b) && e.kind != 0 && !AddTo(b, e).Hangs?
    ensures Wf(AddTo(b, e).bans) && |AddTo(b, e).bans.slots| == |b.slots|
  {
    hide Turns, Count;
    SearchOutcome(UsedBits(b.slots), b.cursor);
    match Outcome(UsedBits(b.slots), b.cursor)
    case Found(c) => StoreKeepsWf(b, c, e);
    case Full(_) =>
  }

  /** Control requests, removals and expiries alone never hang. */
  lemma {:induction false} WithoutEventsRunsReturn(n: nat, ops: seq<Op>)
    requires n > 0
    requires forall i :: 0 <= i < |ops| ==> OpOk(ops[i]) && !ops[i].AutoBan?
    ensures Run(Fresh(n), ops).Some? && Wf(Run(Fresh(n), ops).value)
    decreases |ops|
  {
    if ops == [] {
      CountBounds(UsedBits(Fresh(n).slots));
    } else {
      var k := |ops| - 1;
      WithoutEventsRunsReturn(n, ops[..k]);
      var b := Run(Fresh(n), ops[..k]).value;
      StepHangs(b, ops[k]);
      StepKeepsWf(b, ops[k]);
    }
  }

  predicate BannedBy(e: Entry, op: Op)
    requires op.AdminBan? || op.AutoBan?
  {
    BansMatch(e, op.kind, op.sid, op.name)
  }

  /** Control requests none of which is a duplicate of one before it. */
  predicate FillsUp(ops: seq<Op>) {
    && (forall i :: 0 <= i < |ops| ==> ops[i].AdminBan? && ops[i].kind != 0)
    && (forall i, j :: 0 <= i < j < |ops| ==> !BannedBy(EntryOf(ops[i]), ops[j]))
  }

  function Filled(n: nat, ops: seq<Op>): (slots: seq<Entry>)
    requires |ops| <= n && FillsUp(ops)
    ensures |slots| == n
    ensures forall i :: 0 <= i < n ==> slots[i] == if i < |ops| then EntryOf(ops[i]) else FREE
  {
    seq(n, i requires 0 <= i => if i < |ops| then EntryOf(ops[i]) else FREE)
  }

  lemma {:induction false} FillRun(n: nat, ops: seq<Op>)
    requires n > 0 && |ops| <= n && FillsUp(ops)
    ensures Run(Fresh(n), ops) == Some(Bans(Filled(n, ops), |ops|, |ops|))
    decreases |ops|
  {
    hide Count;
    if ops == [] {
      assert Filled(n, ops) == Fresh(n).slots;
    } else {
      var k := |ops| - 1;
      FillRun(n, ops[..k]);
      var b := Bans(Filled(n, ops[..k]), k, k);
      var e := EntryOf(ops[k]);
      FirstFreeAdd(b, e, k);
      forall i | 0 <= i < n ensures !BannedBy(b.slots[i], ops[k]) {
        if i < k {
          assert b.slots[i] == EntryOf(ops[i]);
        }
      }
      assert b.slots[k := e] == Filled(n, ops);
    }
  }

  /** The hang is reached by any n control requests that are no duplicates of each other: the
      next event that bans anyone else, while none of the bans has expired, is searched for ever. */
  lemma {:induction false} HangIsReachable(n: nat, ops: seq<Op>, op: Op)
    requires n > 0 && |ops| == n && FillsUp(ops)
    requires op.AutoBan? && op.kind != 0
    requires forall i :: 0 <= i < n ==> !BannedBy(EntryOf(ops[i]), op) && !Expired(EntryOf(ops[i]), op.now)
    ensures Run(Fresh(n), ops + [op]) == None
  {
    hide Count, Lapsed;
    FillRun(n, ops);
    assert (ops + [op])[..n] == ops;
    var b := Bans(Filled(n, ops), n, n);
    WithoutEventsRunsReturn(n, ops);
    StepHangs(b, op);
    NothingExpired(b, op.now);
    assert forall i :: 0 <= i < n ==> b.slots[i] == EntryOf(ops[i]) && !BannedBy(b.slots[i], op);
  }

  /** There are such requests for every list size: one name, each for a server of its own. */
  lemma {:induction false} HangOnEverySize(n: nat)
    requires n > 0
    ensures exists ops :: |ops| == n + 1 && Run(Fresh(n), ops) == None
  {
    var ops := seq(n, i requires 0 <= i => AdminBan(3, i + 1, "x", "", 0, None, 0));
    var op := AutoBan(3, n + 1, "x", "", 60, None, 0);
    HangIsReachable(n, ops, op);
    assert |ops + [op]| == n + 1;
  }

  // ----- An expiry that takes a permanent ban -----

  const PERMANENT: Op := AdminBan(3, 1, "x", "", 0, None, 0)
  const TEMPORARY: Op := AutoBan(3, 2, "x", "", 60, None, 0)

  /** On every list of two slots or more: a permanent ban of a name on one server is lost when a
      temporary ban of the same name on another server expires. */
  lemma {:induction false} ExpiryTakesPermanentBan(n: nat)
    requires n >= 2
    ensures var ops := [PERMANENT, TEMPORARY, Lapse(100)];
            && Run(Fresh(n), ops[..2]).Some? && Run(Fresh(n), ops).Some?
            && Key(3, 1, "x") in Abs(Run(Fresh(n), ops[..2]).value.slots)
            && Abs(Run(Fresh(n), ops[..2]).value.slots)[Key(3, 1, "x")].expires == 0
            && Key(3, 1, "x") !in Abs(Run(Fresh(n), ops).value.slots)
  {
    hide Turns, Count, Abs, Lapsed, AddTo, Run;
    var ops := [PERMANENT, TEMPORARY, Lapse(100)];
    var b2 := TwoBans(n);
    assert ops[..2] == [PERMANENT, TEMPORARY];
    assert Run(Fresh(n), ops) == Step(b2, Lapse(100)) by {
      LastStep(Fresh(n), ops);
    }
    AbsValue(b2.slots, 0);
    PermanentIsLost(b2);
  }

  lemma LastStep(b: Bans, ops: seq<Op>)
    requires |b.slots| > 0 && ops != []
    requires Run(b, ops[..|ops| - 1]).Some? && |Run(b, ops[..|ops| - 1]).value.slots| > 0
    ensures Run(b, ops) == Step(Run(b, ops[..|ops| - 1]).value, ops[|ops| - 1])
  {
    hide Step;
  }

  lemma TwoBans(n: nat) returns (b: Bans)
    requires n >= 2
    ensures Run(Fresh(n), [PERMANENT, TEMPORARY]) == Some(b)
    ensures b == Bans(Fresh(n).slots[0 := EntryOf(PERMANENT)][1 := EntryOf(TEMPORARY)], 2, 2)
    ensures Distinct(b.slots)
  {
    hide Turns, Count, Lapsed, AddTo, Run;
    var b0, e1, e2 := Fresh(n), EntryOf(PERMANENT), EntryOf(TEMPORARY);
    CountBounds(UsedBits(b0.slots));
    FirstFreeAdd(b0, e1, 0);
    StoreKeepsWf(b0, 0, e1);
    var b1 := Bans(b0.slots[0 := e1], 1, 1);
    NothingExpired(b1, 0);
    FirstFreeAdd(b1, e2, 1);
    b := Bans(b1.slots[1 := e2], 2, 2);
    RunEmpty(b0);
    assert [PERMANENT][..0] == [] && [PERMANENT, TEMPORARY][..1] == [PERMANENT];
    LastStep(b0, [PERMANENT]);
    LastStep(b0, [PERMANENT, TEMPORARY]);
  }

  lemma RunEmpty(b: Bans)
    requires |b.slots| > 0
    ensures Run(b, []) == Some(b)
  {
  }

  lemma PermanentIsLost(b: Bans)
    requires |b.slots| >= 2
    requires b == Bans(Fresh(|b.slots|).slots[0 := EntryOf(PERMANENT)][1 := EntryOf(TEMPORARY)], 2, 2)
    ensures Key(3, 1, "x") !in Abs(ExpireAll(b, 100).slots)
  {
    hide Abs, Count, Lapsed;
    ExpireSurvivors(b, 100, 0);
    assert Triggers(b.slots, 1, 100);
    AbsKeys(ExpireAll(b, 100).slots, Key(3, 1, "x"));
    forall k | 0 <= k < |b.slots| ensures ExpireAll(b, 100).slots[k].kind != 0 ==> k == 1 {
      if k > 1 {
        assert b.slots[k] == FREE;
      }
    }
  }

  /** Adding at a cursor that stands on a free slot. */
  lemma FirstFreeAdd(b: Bans, e: Entry, c: nat)
    requires c < |b.slots| && b.cursor == c && b.slots[c].kind == 0
    ensures AddTo(b, e) == Stored(Bans(b.slots[c := e], b.len + 1, c + 1))
  {
    FindsFirstFree(UsedBits(b.slots), c, 0);
  }

  lemma NothingExpired(b: Bans, now: int)
    requires Wf(b) && forall i :: 0 <= i < |b.slots| ==> !Expired(b.slots[i], now)
    ensures ExpireAll(b, now) == b
  {
    hide Count;
    assert Lapsed(b.slots, now, |b.slots|) == {};
    assert Clear(b.slots, {}) == b.slots;
  }

  // ----- Names that do not fit -----

  /** Banning one new name twice, with room for both: the guard stops the second ban, and
      keys stay distinct, exactly when the name fits its buffer. */
  lemma {:induction false} LongNamesAreBannedTwice(b: Bans, op: Op)
    requires Inv(b) && op.AdminBan? && op.kind != 0 && b.len + 2 <= |b.slots|
    requires !Banned(b.slots, op.kind, op.sid, op.name) && KeyOf(EntryOf(op)) !in Abs(b.slots)
    ensures Step(b, op).Some? && Inv(Step(b, op).value) && Step(Step(b, op).value, op).Some?
    ensures var b2 := Step(Step(b, op).value, op).value;
            Distinct(b2.slots) <==> Fits(op)
  {
    hide Abs, Turns, Count;
    var e := EntryOf(op);
    StepHangs(b, op);
    AddFollowsMap(b, e);
    var b1 := Step(b, op).value;
    StepHangs(b1, op);
    AddGrows(b, e);
    ExistsIsMapLookup(b1.slots, op.kind, op.sid, op.name);
    if !Fits(op) {
      ExistsIsMapLookup(b.slots, op.kind, op.sid, op.name);
      LenBound(b1);
      SearchOutcome(UsedBits(b1.slots), b1.cursor);
      var c := Outcome(UsedBits(b1.slots), b1.cursor).slot;
      StoreIsMapUpdate(b1.slots, c, e);
    }
  }

  lemma AddGrows(b: Bans, e: Entry)
    requires Inv(b) && e.kind != 0 && b.len < |b.slots|
    ensures AddTo(b, e).Stored? && AddTo(b, e).bans.len == b.len + 1
  {
    LenBound(b);
    SearchOutcome(UsedBits(b.slots), b.cursor);
  }
}
