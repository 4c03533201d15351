/** Runs of the ban list of contrib/mod_ban.c with names of any length. A name that does not fit
    its buffer is stored cut short; everywhere but at the texts such names are cut to, the list
    still behaves as a map.
*/
module BanNames {
  import opened Basics
  import opened SlotSearch
  import opened BanList
  import opened BanRuns

  /** The slots whose name is, or is not, one of a set of texts. */
  function Split(slots: seq<Entry>, cut: set<string>, inside: bool): (r: seq<Entry>)
    ensures |r| == |slots|
    ensures forall i :: 0 <= i < |slots| ==> r[i] == if (slots[i].name in cut) == inside then slots[i] else FREE
  {
    seq(|slots|, i requires 0 <= i < |slots| => if (slots[i].name in cut) == inside then slots[i] else FREE)
  }

  function Kept(slots: seq<Entry>, cut: set<string>): (r: seq<Entry>) {
    Split(slots, cut, false)
  }

  /** How many slots have one of the texts. */
  function Others(slots: seq<Entry>, cut: set<string>): nat {
    Count(UsedBits(Split(slots, cut, true)))
  }

  /** The texts that the over-long names of an operation are cut to are in the set. */
  predicate CutInto(op: Op, cut: set<string>) {
    !Fits(op) ==> Clip(op.name) in cut
  }

  /** The operation bans a name that is stored as given and is none of the texts. */
  predicate Own(op: Op, cut: set<string>) {
    (op.AdminBan? || op.AutoBan?) && Fits(op) && op.name !in cut
  }

  predicate InvOutside(b: Bans, cut: set<string>) {
    Wf(b) && Distinct(Kept(b.slots, cut))
  }

  // ----- Counting -----

  lemma {:induction false} CountSum(a: seq<bool>, b: seq<bool>, c: seq<bool>)
    requires |a| == |b| == |c|
    requires forall i :: 0 <= i < |a| ==> c[i] == (a[i] || b[i]) && !(a[i] && b[i])
    ensures Count(c) == Count(a) + Count(b)
  {
    if a != [] {
      CountSum(a[1..], b[1..], c[1..]);
    }
  }

  lemma {:induction false} CountMonotone(a: seq<bool>, b: seq<bool>)
    requires |a| == |b| && forall i :: 0 <= i < |a| && a[i] ==> b[i]
    ensures Count(a) <= Count(b)
  {
    if a != [] {
      CountMonotone(a[1..], b[1..]);
    }
  }

  /** The counter is the size of the map and the slots outside it. */
  lemma LenIsSum(b: Bans, cut: set<string>)
    requires InvOutside(b, cut)
    ensures b.len == |Abs(Kept(b.slots, cut))| + Others(b.slots, cut) <= |b.slots|
    ensures b.len < |b.slots| <==> HasFree(UsedBits(b.slots))
    ensures cut == {} ==> Others(b.slots, cut) == 0
  {
    hide Abs;
    AbsSize(Kept(b.slots, cut));
    CountSum(UsedBits(Kept(b.slots, cut)), UsedBits(Split(b.slots, cut, true)), UsedBits(b.slots));
    CountBounds(UsedBits(b.slots));
    CountBounds(UsedBits(Split(b.slots, cut, true)));
  }

  // ----- The map with slots beside it -----

  /** A map and the number of slots that hold something else. */
  datatype Outside = Outside(m: BanMap, others: nat)

  predicate FullOf(n: nat, s: Outside) {
    |s.m| + s.others == n
  }

  ghost predicate LapseOutside(s: Outside, now: int, s': Outside) {
    MapLapse(s.m, now, s'.m) && s'.others <= s.others
  }

  function Gains(n: nat, s: Outside, op: Op): Outside
    requires op.AdminBan? || op.AutoBan?
  {
    if FullOf(n, s) then s
    else s.(m := s.m[Key(op.kind, op.sid, op.name) := MapPayload(op.reason, op.message, op.lasts, op.now)])
  }

  /** One step: bans of other names, removals and expiries act on the map as on a map; bans of
      the texts change only what is beside it. */
  ghost predicate StepOutside(n: nat, s: Outside, op: Op, cut: set<string>, s': Outside) {
    && (cut == {} ==> s'.others == 0)
    && match op
       case AdminBan(kind, sid, name, _, _, _, _) =>
         if Own(op, cut) then s' == if MapBanned(s.m, kind, sid, name) then s else Gains(n, s, op)
         else s'.m == s.m && s.others <= s'.others <= s.others + 1
       case AutoBan(kind, sid, name, _, _, _, now) =>
         if Own(op, cut) then
           if MapBanned(s.m, kind, sid, name) then s' == s
           else exists s1 :: LapseOutside(s, now, s1) && s' == Gains(n, s1, op)
         else s' == s || (MapLapse(s.m, now, s'.m) && s'.others <= s.others + 1)
       case Permit(kind, sid, target) =>
         && s'.m == (map k | k in s.m && !KeyPermitted(k, kind, sid, target) :: s.m[k])
         && s'.others <= s.others
       case Lapse(now) => LapseOutside(s, now, s')
  }

  ghost predicate RunOutside(n: nat, ops: seq<Op>, cut: set<string>, s: Outside)
    decreases |ops|
  {
    if ops == [] then s == Outside(map[], 0) else
      var before, last := ops[..|ops| - 1], ops[|ops| - 1];
      exists s0 :: RunOutside(n, before, cut, s0) && StepOutside(n, s0, last, cut, s)
  }

  function View(b: Bans, cut: set<string>): Outside {
    Outside(Abs(Kept(b.slots, cut)), Others(b.slots, cut))
  }

  // ----- Each operation -----

  lemma SplitClear(slots: seq<Entry>, gone: set<int>, cut: set<string>, inside: bool)
    requires "" !in cut
    ensures Split(Clear(slots, gone), cut, inside) == Clear(Split(slots, cut, inside), gone)
  {
  }

  lemma ClearOutside(b: Bans, gone: set<int>, cut: set<string>)
    requires InvOutside(b, cut) && "" !in cut
    ensures var slots := Clear(b.slots, gone);
            && InvOutside(Bans(slots, Count(UsedBits(slots)), b.cursor), cut)
            && Kept(slots, cut) == Clear(Kept(b.slots, cut), gone)
            && Others(slots, cut) <= Others(b.slots, cut)
  {
    hide Abs, Count;
    SplitClear(b.slots, gone, cut, false);
    SplitClear(b.slots, gone, cut, true);
    ClearIsMapRestriction(Kept(b.slots, cut), gone);
    CountMonotone(UsedBits(Split(Clear(b.slots, gone), cut, true)), UsedBits(Split(b.slots, cut, true)));
  }

  lemma LookupOutside(slots: seq<Entry>, kind: nat, sid: nat, name: string, cut: set<string>)
    requires kind != 0 && name !in cut
    ensures Banned(slots, kind, sid, name) <==> MapBanned(Abs(Kept(slots, cut)), kind, sid, name)
  {
    hide Abs;
    ExistsIsMapLookup(Kept(slots, cut), kind, sid, name);
    if Banned(slots, kind, sid, name) {
      var i :| 0 <= i < |slots| && BansMatch(slots[i], kind, sid, name);
      assert BansMatch(Kept(slots, cut)[i], kind, sid, name);
    }
    if Banned(Kept(slots, cut), kind, sid, name) {
      var i :| 0 <= i < |slots| && BansMatch(Kept(slots, cut)[i], kind, sid, name);
      assert BansMatch(slots[i], kind, sid, name);
    }
  }

  lemma {:induction false} LapseStepOutside(b: Bans, now: int, cut: set<string>)
    requires InvOutside(b, cut) && "" !in cut
    ensures InvOutside(ExpireAll(b, now), cut)
    ensures LapseOutside(View(b, cut), now, View(ExpireAll(b, now), cut))
  {
    hide Abs, Count, Lapsed, Kept, Others, Wf;
    var gone := Lapsed(b.slots, now, |b.slots|);
    var kept := Kept(b.slots, cut);
    ClearOutside(b, gone, cut);
    ClearIsMapRestriction(kept, gone);
    var m, m' := Abs(kept), Abs(Clear(kept, gone));
    forall k | k in m' ensures !MapExpired(m[k], now) {
      LeftIsNotExpired(b, now, cut, k);
    }
    forall k | k in m && k.name != "" && !MapExpired(m[k], now) && Unshared(m, now, k) ensures k in m' {
      UnsharedIsLeft(b, now, cut, k);
    }
  }

  predicate Unshared(m: BanMap, now: int, k: Key) {
    forall j :: j in m && j.kind == k.kind && j.name == k.name ==> !MapExpired(m[j], now)
  }

  lemma LeftIsNotExpired(b: Bans, now: int, cut: set<string>, k: Key)
    requires InvOutside(b, cut) && "" !in cut
    requires k in Abs(Clear(Kept(b.slots, cut), Lapsed(b.slots, now, |b.slots|)))
    ensures k in Abs(Kept(b.slots, cut)) && !MapExpired(Abs(Kept(b.slots, cut))[k], now)
  {
    hide Abs, Count, Lapsed;
    var kept, gone := Kept(b.slots, cut), Lapsed(b.slots, now, |b.slots|);
    AbsKeys(Clear(kept, gone), k);
    var i :| 0 <= i < |kept| && Clear(kept, gone)[i].kind != 0 && KeyOf(Clear(kept, gone)[i]) == k;
    ExpireLeavesNoneExpired(b, now);
    assert ExpireAll(b, now).slots[i] == kept[i];
    AbsValue(kept, i);
  }

  lemma UnsharedIsLeft(b: Bans, now: int, cut: set<string>, k: Key)
    requires InvOutside(b, cut) && "" !in cut
    requires k in Abs(Kept(b.slots, cut)) && k.name != "" && Unshared(Abs(Kept(b.slots, cut)), now, k)
    ensures k in Abs(Clear(Kept(b.slots, cut), Lapsed(b.slots, now, |b.slots|)))
  {
    hide Abs, Count, Lapsed;
    var kept, gone := Kept(b.slots, cut), Lapsed(b.slots, now, |b.slots|);
    AbsKeys(kept, k);
    var i :| 0 <= i < |kept| && kept[i].kind != 0 && KeyOf(kept[i]) == k;
    forall j | 0 <= j < |b.slots| && Expired(b.slots[j], now)
      ensures b.slots[j].kind != b.slots[i].kind || b.slots[j].name != b.slots[i].name
    {
      if b.slots[j].name == k.name {
        assert kept[j] == b.slots[j];
        AbsValue(kept, j);
      }
    }
    ExpireKeepsUnshared(b, now, i);
    assert Clear(kept, gone)[i] == kept[i];
    AbsKeys(Clear(kept, gone), k);
  }

  lemma {:induction false} RemoveOutside(b: Bans, kind: nat, sid: nat, name: Option<string>, cut: set<string>)
    requires InvOutside(b, cut) && "" !in cut && kind != 0
    ensures InvOutside(RemoveFrom(b, kind, sid, name), cut)
    ensures Others(RemoveFrom(b, kind, sid, name).slots, cut) <= Others(b.slots, cut)
    ensures var m := Abs(Kept(b.slots, cut));
            Abs(Kept(RemoveFrom(b, kind, sid, name).slots, cut)) ==
              map k | k in m && !KeyPermitted(k, kind, sid, name) :: m[k]
  {
    hide Abs, Count;
    var kept, gone := Kept(b.slots, cut), Permitted(b.slots, kind, sid, name);
    ClearOutside(b, gone, cut);
    RemoveIsMapDeletion(kept, kind, sid, name);
    assert Clear(kept, gone) == Clear(kept, Permitted(kept, kind, sid, name)) by {
      forall i | 0 <= i < |kept| && kept[i].kind != 0
        ensures i in gone <==> i in Permitted(kept, kind, sid, name)
      {
        PermittedOutside(b.slots, kind, sid, name, cut, i);
      }
      assert forall i :: 0 <= i < |kept| && kept[i].kind == 0 ==> kept[i] == FREE;
    }
  }

  lemma PermittedOutside(slots: seq<Entry>, kind: nat, sid: nat, name: Option<string>, cut: set<string>, i: nat)
    requires i < |slots| && kind != 0 && Kept(slots, cut)[i].kind != 0
    ensures i in Permitted(slots, kind, sid, name) <==> i in Permitted(Kept(slots, cut), kind, sid, name)
  {
    var kept := Kept(slots, cut);
    assert kept[i] == slots[i];
    if name.Some? && PermitMatch(slots[i], kind, sid, name) {
      forall j | 0 <= j < i ensures PermitMatch(slots[j], kind, sid, name) <==> PermitMatch(kept[j], kind, sid, name) {
        if PermitMatch(slots[j], kind, sid, name) {
          assert kept[j] == slots[j];
        }
      }
    }
  }

  /** Adding an entry: one of the map if its name is none of the texts, beside it otherwise. */
  lemma {:induction false} AddOutside(b: Bans, e: Entry, cut: set<string>)
    requires InvOutside(b, cut) && "" !in cut && e.kind != 0 && !AddTo(b, e).Hangs?
    requires e.name !in cut ==> KeyOf(e) !in Abs(Kept(b.slots, cut))
    ensures InvOutside(AddTo(b, e).bans, cut) && |AddTo(b, e).bans.slots| == |b.slots|
    ensures var s, s' := View(b, cut), View(AddTo(b, e).bans, cut);
            s' == if FullOf(|b.slots|, s) then s
                  else if e.name in cut then s.(others := s.others + 1)
                  else s.(m := s.m[KeyOf(e) := PayloadOf(e)])
  {
    hide Abs, Turns, Count;
    SearchOutcome(UsedBits(b.slots), b.cursor);
    LenIsSum(b, cut);
    match Outcome(UsedBits(b.slots), b.cursor)
    case Found(c) =>
      StoreKeepsWf(b, c, e);
      StoreSplit(b.slots, c, e, cut);
      if e.name in cut {
        CountAfterUpdate(Split(b.slots, cut, true), IsUsed, c, e);
      } else {
        StoreIsMapUpdate(Kept(b.slots, cut), c, e);
      }
    case Full(c) =>
  }

  lemma StoreSplit(slots: seq<Entry>, c: nat, e: Entry, cut: set<string>)
    requires c < |slots| && slots[c] == FREE && "" !in cut
    ensures Split(slots[c := e], cut, e.name in cut) == Split(slots, cut, e.name in cut)[c := e]
    ensures Split(slots[c := e], cut, e.name !in cut) == Split(slots, cut, e.name !in cut)
    ensures Split(slots, cut, true)[c] == FREE && Split(slots, cut, false)[c] == FREE
  {
  }

  lemma {:induction false} StepFollowsOutside(b: Bans, op: Op, cut: set<string>)
    requires InvOutside(b, cut) && "" !in cut && OpOk(op) && CutInto(op, cut)
    requires Step(b, op).Some?
    ensures InvOutside(Step(b, op).value, cut) && |Step(b, op).value.slots| == |b.slots|
    ensures StepOutside(|b.slots|, View(b, cut), op, cut, View(Step(b, op).value, cut))
  {
    hide Abs, Count, AddTo, Lapsed, Permitted, MapLapse, Others, Kept, InvOutside;
    match op
    case AdminBan(kind, sid, name, _, _, _, _) => AdminOutside(b, op, cut);
    case AutoBan(kind, sid, name, _, _, _, now) => AutoOutside(b, op, cut);
    case Permit(kind, sid, name) =>
      RemoveOutside(b, kind, sid, name, cut);
      OthersWhenEmpty(RemoveFrom(b, kind, sid, name), cut);
    case Lapse(now) =>
      LapseStepOutside(b, now, cut);
      OthersWhenEmpty(ExpireAll(b, now), cut);
  }

  lemma OthersWhenEmpty(b: Bans, cut: set<string>)
    requires InvOutside(b, cut)
    ensures cut == {} ==> Others(b.slots, cut) == 0
  {
    LenIsSum(b, cut);
  }

  lemma {:induction false} AdminOutside(b: Bans, op: Op, cut: set<string>)
    requires InvOutside(b, cut) && "" !in cut && op.AdminBan? && OpOk(op) && CutInto(op, cut)
    requires Step(b, op).Some?
    ensures InvOutside(Step(b, op).value, cut) && |Step(b, op).value.slots| == |b.slots|
    ensures StepOutside(|b.slots|, View(b, cut), op, cut, View(Step(b, op).value, cut))
  {
    hide Abs, Count, AddTo, Kept, Others, Banned, MapBanned;
    LenIsSum(b, cut);
    if Own(op, cut) {
      LookupOutside(b.slots, op.kind, op.sid, op.name, cut);
    }
    if !Banned(b.slots, op.kind, op.sid, op.name) && b.len < |b.slots| {
      if Own(op, cut) {
        NotBannedIsNew(Abs(Kept(b.slots, cut)), op);
      }
      AddOutside(b, EntryOf(op), cut);
      LenIsSum(Step(b, op).value, cut);
    }
  }

  lemma {:induction false} AutoOutside(b: Bans, op: Op, cut: set<string>)
    requires InvOutside(b, cut) && "" !in cut && op.AutoBan? && OpOk(op) && CutInto(op, cut)
    requires Step(b, op).Some?
    ensures InvOutside(Step(b, op).value, cut) && |Step(b, op).value.slots| == |b.slots|
    ensures StepOutside(|b.slots|, View(b, cut), op, cut, View(Step(b, op).value, cut))
  {
    hide Abs, Count, AddTo, Kept, Others, Banned, MapBanned, Lapsed;
    LenIsSum(b, cut);
    if Own(op, cut) {
      LookupOutside(b.slots, op.kind, op.sid, op.name, cut);
    }
    if !Banned(b.slots, op.kind, op.sid, op.name) {
      LapseStepOutside(b, op.now, cut);
      var b1 := ExpireAll(b, op.now);
      if Own(op, cut) {
        NotBannedIsNew(Abs(Kept(b.slots, cut)), op);
      }
      AddOutside(b1, EntryOf(op), cut);
      LenIsSum(Step(b, op).value, cut);
      assert LapseOutside(View(b, cut), op.now, View(b1, cut));
    }
  }

  lemma NotBannedIsNew(m: BanMap, op: Op)
    requires op.AdminBan? || op.AutoBan?
    requires Fits(op) && !MapBanned(m, op.kind, op.sid, op.name)
    ensures KeyOf(EntryOf(op)) == Key(op.kind, op.sid, op.name) && KeyOf(EntryOf(op)) !in m
  {
  }

  /** Every run, with names of any length, as far as it gets: the list is well-formed, and
      outside the texts that over-long names are cut to its keys are distinct and it is a run of
      the map. With no such names the texts are none, and the list is the map. */
  lemma {:induction false} RunsRefineTheMapOutside(n: nat, ops: seq<Op>, cut: set<string>)
    requires n > 0 && "" !in cut
    requires forall i :: 0 <= i < |ops| ==> OpOk(ops[i]) && CutInto(ops[i], cut)
    requires Run(Fresh(n), ops).Some?
    ensures var b := Run(Fresh(n), ops).value;
            InvOutside(b, cut) && |b.slots| == n && RunOutside(n, ops, cut, View(b, cut))
    decreases |ops|
  {
    hide Step, StepOutside, InvOutside, View;
    if ops == [] {
      FreshOutside(n, cut);
    } else {
      var k := |ops| - 1;
      RunsRefineTheMapOutside(n, ops[..k], cut);
      StepFollowsOutside(Run(Fresh(n), ops[..k]).value, ops[k], cut);
    }
  }

  lemma FreshOutside(n: nat, cut: set<string>)
    requires n > 0 && "" !in cut
    ensures InvOutside(Fresh(n), cut) && View(Fresh(n), cut) == Outside(map[], 0)
  {
    hide Abs;
    FreshIsEmpty(n);
    assert Kept(Fresh(n).slots, cut) == Fresh(n).slots;
    CountBounds(UsedBits(Split(Fresh(n).slots, cut, true)));
  }

  // ----- Names that all fit -----

  ghost predicate MapStep(n: nat, m: BanMap, op: Op, m': BanMap) {
    match op
    case AdminBan(kind, sid, name, reason, lasts, message, now) =>
      m' == if MapBanned(m, kind, sid, name) || |m| == n then m
            else m[Key(kind, sid, name) := MapPayload(reason, message, lasts, now)]
    case AutoBan(kind, sid, name, reason, lasts, message, now) =>
      if MapBanned(m, kind, sid, name) then m' == m
      else exists m1 ::
        && MapLapse(m, now, m1)
        && m' == if |m1| == n then m1 else m1[Key(kind, sid, name) := MapPayload(reason, message, lasts, now)]
    case Permit(kind, sid, name) =>
      m' == map k | k in m && !KeyPermitted(k, kind, sid, name) :: m[k]
    case Lapse(now) => MapLapse(m, now, m')
  }

  ghost predicate MapRun(n: nat, ops: seq<Op>, m: BanMap)
    decreases |ops|
  {
    if ops == [] then m == map[] else
      var before, last := ops[..|ops| - 1], ops[|ops| - 1];
      exists m0 :: MapRun(n, before, m0) && MapStep(n, m0, last, m)
  }

  lemma StepWithoutOthers(n: nat, s: Outside, op: Op, s': Outside)
    requires Fits(op) && s.others == 0 && StepOutside(n, s, op, {}, s')
    ensures MapStep(n, s.m, op, s'.m) && s'.others == 0
  {
    hide MapLapse, MapBanned;
    if op.AutoBan? && !MapBanned(s.m, op.kind, op.sid, op.name) {
      var s1 :| LapseOutside(s, op.now, s1) && s' == Gains(n, s1, op);
      assert MapLapse(s.m, op.now, s1.m);
    }
  }

  lemma {:induction false} RunWithoutOthers(n: nat, ops: seq<Op>, s: Outside)
    requires forall i :: 0 <= i < |ops| ==> Fits(ops[i])
    requires RunOutside(n, ops, {}, s)
    ensures MapRun(n, ops, s.m) && s.others == 0
    decreases |ops|
  {
    hide StepOutside, MapStep;
    if ops != [] {
      var k := |ops| - 1;
      var s0 :| RunOutside(n, ops[..k], {}, s0) && StepOutside(n, s0, ops[k], {}, s);
      RunWithoutOthers(n, ops[..k], s0);
      StepWithoutOthers(n, s0, ops[k], s);
    }
  }

  /** Every run whose names fit, as far as it gets, is a run of the map: the counter is the
      map's size, keys are distinct, free slots are zero. */
  lemma {:induction false} RunsRefineTheMap(n: nat, ops: seq<Op>)
    requires n > 0
    requires forall i :: 0 <= i < |ops| ==> OpOk(ops[i]) && Fits(ops[i])
    requires Run(Fresh(n), ops).Some?
    ensures var b := Run(Fresh(n), ops).value;
            Inv(b) && |b.slots| == n && MapRun(n, ops, Abs(b.slots))
  {
    hide Abs, Run, MapRun, RunOutside;
    RunsRefineTheMapOutside(n, ops, {});
    var b := Run(Fresh(n), ops).value;
    assert Kept(b.slots, {}) == b.slots;
    RunWithoutOthers(n, ops, View(b, {}));
    InvSize(b);
  }
}
