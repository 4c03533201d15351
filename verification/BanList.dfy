/** The ban list of contrib/mod_ban.c: a fixed array of slots with a wrapping cursor and a
    separate length counter.
*/
module BanList {
  import opened Basics
  import opened SlotSearch

  const BAN_STRING_MAXSZ: nat := 128

  /** A slot; kind 0 means free. */
  datatype Entry = Entry(kind: nat, sid: nat, name: string, reason: string, message: string, expires: int)

  const FREE: Entry := Entry(0, 0, "", "", "", 0)

  /** The list as a value: the slots below BAN_LIST_MAXSZ, the counter and the cursor. */
  datatype Bans = Bans(slots: seq<Entry>, len: nat, cursor: nat)

  // ----- What the operations mean -----

  predicate IsUsed(e: Entry) {
    e.kind != 0
  }

  function UsedBits(slots: seq<Entry>): (used: seq<bool>) {
    Marks(slots, IsUsed)
  }

  /** sstrncpy into a buffer of BAN_STRING_MAXSZ characters. */
  function Clip(s: string): string {
    if |s| < BAN_STRING_MAXSZ then s else s[..BAN_STRING_MAXSZ - 1]
  }

  function NewEntry(kind: nat, sid: nat, name: string, reason: string, lasts: nat,
                    message: Option<string>, now: int): Entry
  {
    Entry(kind, sid, Clip(name), Clip(reason), if message.Some? then Clip(message.value) else "",
          if lasts != 0 then now + lasts else 0)
  }

  /** How an add ends: stored, refused for want of a slot, or never. */
  datatype AddResult = Stored(bans: Bans) | NoSpace(bans: Bans) | Hangs

  function AddTo(b: Bans, e: Entry): AddResult
    requires |b.slots| > 0
  {
    match Outcome(UsedBits(b.slots), b.cursor)
    case Found(c) =>
      SearchOutcome(UsedBits(b.slots), b.cursor);
      Stored(Bans(b.slots[c := e], b.len + 1, c + 1))
    case Full(c) => NoSpace(b.(cursor := c))
    case Probing(_, _) => Hangs
  }

  predicate BansMatch(e: Entry, kind: nat, sid: nat, name: string) {
    e.kind == kind && (e.sid == 0 || e.sid == sid) && e.name == name
  }

  predicate Banned(slots: seq<Entry>, kind: nat, sid: nat, name: string) {
    exists i :: 0 <= i < |slots| && BansMatch(slots[i], kind, sid, name)
  }

  predicate PermitMatch(e: Entry, kind: nat, sid: nat, name: Option<string>) {
    e.kind == kind && (sid == 0 || e.sid == sid) && (name.Some? ==> e.name == name.value)
  }

  function Clear(slots: seq<Entry>, gone: set<int>): (r: seq<Entry>)
    ensures |r| == |slots|
    ensures forall i :: 0 <= i < |slots| ==> r[i] == if i in gone then FREE else slots[i]
  {
    seq(|slots|, i requires 0 <= i < |slots| => if i in gone then FREE else slots[i])
  }

  /** The slots a removal clears: all that match, or with both a server and a name only the
      first that does. */
  function Permitted(slots: seq<Entry>, kind: nat, sid: nat, name: Option<string>): (gone: set<int>) {
    set i | 0 <= i < |slots| && PermitMatch(slots[i], kind, sid, name)
            && (sid != 0 && name.Some? ==> forall j :: 0 <= j < i ==> !PermitMatch(slots[j], kind, sid, name))
  }

  predicate Expired(e: Entry, now: int) {
    e.kind != 0 && e.expires != 0 && !(e.expires > now)
  }

  /** The slots cleared when slot i is removed by its own name: the name is read from the
      slot, so from the moment the slot is cleared it reads as the empty string. */
  predicate ClearedWith(slots: seq<Entry>, i: int, k: int)
    requires 0 <= i < |slots| && 0 <= k < |slots|
  {
    slots[k].kind == slots[i].kind && slots[k].name == if k <= i then slots[i].name else ""
  }

  /** Slot i is expired and still there when the expiry scan reaches it. */
  predicate Triggers(slots: seq<Entry>, i: int, now: int)
    requires 0 <= i < |slots|
  {
    && Expired(slots[i], now)
    && (slots[i].name == "" ==>
          forall j :: 0 <= j < i && slots[j].kind == slots[i].kind ==> !Expired(slots[j], now))
  }

  predicate LapsesBefore(slots: seq<Entry>, now: int, n: int, k: int)
    requires n <= |slots| && 0 <= k < |slots|
  {
    exists i :: 0 <= i < n && Triggers(slots, i, now) && ClearedWith(slots, i, k)
  }

  /** The slots an expiry scan of the first n slots clears. */
  function Lapsed(slots: seq<Entry>, now: int, n: int): set<int>
    requires n <= |slots|
  {
    set k | 0 <= k < |slots| && LapsesBefore(slots, now, n, k)
  }

  function ExpireAll(b: Bans, now: int): Bans {
    var slots := Clear(b.slots, Lapsed(b.slots, now, |b.slots|));
    Bans(slots, Count(UsedBits(slots)), b.cursor)
  }

  function RemoveFrom(b: Bans, kind: nat, sid: nat, name: Option<string>): Bans {
    var slots := Clear(b.slots, Permitted(b.slots, kind, sid, name));
    Bans(slots, Count(UsedBits(slots)), b.cursor)
  }

  /** The invariant of the list: the counter is the number of used slots, free slots are
      zeroed, and the cursor is at most one past the end. */
  predicate Wf(b: Bans) {
    && |b.slots| > 0
    && b.len == Count(UsedBits(b.slots))
    && b.cursor <= |b.slots|
    && forall i :: 0 <= i < |b.slots| && b.slots[i].kind == 0 ==> b.slots[i] == FREE
  }

  lemma StoreKeepsWf(b: Bans, slot: nat, e: Entry)
    requires Wf(b) && slot < |b.slots| && b.slots[slot].kind == 0 && e.kind != 0
    ensures Wf(Bans(b.slots[slot := e], b.len + 1, slot + 1))
  {
    CountAfterUpdate(b.slots, IsUsed, slot, e);
  }

  lemma FreeKeepsWf(b: Bans, slot: nat)
    requires Wf(b) && slot < |b.slots| && b.slots[slot].kind != 0
    ensures b.len > 0
    ensures Wf(b.(slots := b.slots[slot := FREE], len := b.len - 1))
  {
    CountAfterUpdate(b.slots, IsUsed, slot, FREE);
    CountBounds(UsedBits(b.slots));
  }

  lemma CounterIsCount(b: Bans)
    requires Wf(b)
    ensures b.len == Count(UsedBits(b.slots))
  {
  }

  // ----- The list in memory -----

  /** The name argument of a removal: none, a text of the caller's, or a pointer to the name
      field of a slot. */
  datatype NameArg = NoName | Text(s: string) | NameOfSlot(i: nat)

  /** No slot before k bans the name on that server. */
  predicate FirstOn(slots: seq<Entry>, k: nat, kind: nat, sid: nat, name: string)
    requires k <= |slots|
  {
    forall j :: 0 <= j < k ==> !(slots[j].kind == kind && slots[j].sid == sid && slots[j].name == name)
  }

  predicate IsFirstBan(slots: seq<Entry>, i: nat, kind: nat, sid: nat, name: string)
    requires i < |slots|
  {
    && BansMatch(slots[i], kind, sid, name)
    && forall j :: 0 <= j < i ==> !BansMatch(slots[j], kind, sid, name)
  }

  class List {
    const n: nat
    const entries: array<Entry>
    var listlen: nat
    var nextSlot: nat

    function View(): Bans
      reads this, entries
      requires n <= entries.Length
    {
      Bans(entries[..n], listlen, nextSlot)
    }

    ghost predicate Valid()
      reads this, entries
    {
      && n <= entries.Length
      && Wf(View())
      && forall i :: n <= i < entries.Length ==> entries[i] == FREE
    }

    constructor (n: nat, headroom: nat)
      requires n > 0
      ensures Valid() && this.n == n && entries.Length == n + headroom && fresh(entries)
      ensures View() == Bans(seq(n, _ => FREE), 0, 0)
      ensures forall i :: 0 <= i < entries.Length ==> entries[i] == Entry(0, 0, "", "", "", 0)
    {
      this.n := n;
      entries := new Entry[n + headroom](_ => FREE);
      listlen, nextSlot := 0, 0;
      new;
      assert entries[..n] == seq(n, _ => FREE);
      CountBounds(UsedBits(entries[..n]));
    }

    /** ban_list_add, for the calls that return. */
    method Add(kind: nat, sid: nat, name: string, reason: string, lasts: nat,
               message: Option<string>, now: int) returns (ok: bool)
      requires Valid() && kind != 0
      requires Stops(UsedBits(View().slots), nextSlot)
      modifies this, entries
      ensures Valid()
      ensures ok <==> HasFree(UsedBits(old(View()).slots))
      ensures AddTo(old(View()), NewEntry(kind, sid, name, reason, lasts, message, now))
           == if ok then Stored(View()) else NoSpace(View())
    {
      hide Turns, Turn, Count;
      SearchOutcome(UsedBits(entries[..n]), nextSlot);
      ok, nextSlot := Seek(entries, n, IsUsed, nextSlot);
      if ok {
        var e := NewEntry(kind, sid, name, reason, lasts, message, now);
        StoreKeepsWf(old(View()), nextSlot, e);
        entries[nextSlot] := e;
        assert entries[..n] == old(entries[..n])[nextSlot := e];
        nextSlot := nextSlot + 1;
        listlen := listlen + 1;
      }
    }

    /** ban_list_exists: some slot bans the name on this server or on all servers, and the
        first such slot provides the message. */
    method Exists(kind: nat, sid: nat, name: string) returns (found: bool, message: Option<string>)
      requires Valid() && kind != 0
      ensures found <==> Banned(View().slots, kind, sid, name)
      ensures !found ==> message == None
      ensures forall i | 0 <= i < n && IsFirstBan(entries[..n], i, kind, sid, name) ::
        message == if entries[i].message == "" then None else Some(entries[i].message)
    {
      hide Count;
      found, message := false, None;
      if listlen != 0 {
        for i := 0 to n
          invariant forall j :: 0 <= j < i ==> !BansMatch(entries[j], kind, sid, name)
        {
          if BansMatch(entries[i], kind, sid, name) {
            if |entries[i].message| > 0 {
              message := Some(entries[i].message);
            }
            assert BansMatch(View().slots[i], kind, sid, name);
            return true, message;
          }
        }
      } else {
        NoneUsed(View().slots, IsUsed);
      }
      assert forall i :: 0 <= i < n ==> View().slots[i] == entries[i];
    }

    /** What the name argument reads as at this moment. */
    function Reads(arg: NameArg): Option<string>
      requires arg.NameOfSlot? ==> arg.i < entries.Length
      reads entries
    {
      match arg
      case NoName => None
      case Text(s) => Some(s)
      case NameOfSlot(i) => Some(entries[i].name)
    }

    /** ban_list_remove. */
    method Remove(kind: nat, sid: nat, arg: NameArg) returns (ok: bool)
      requires Valid() && kind != 0
      requires arg.NameOfSlot? ==> arg.i < n && sid == 0 && entries[arg.i].kind == kind
      modifies this`listlen, entries
      ensures Valid()
      ensures View().slots == Clear(old(View()).slots, GoneWith(old(View()).slots, kind, sid, arg))
      ensures !arg.NameOfSlot? ==> View() == RemoveFrom(old(View()), kind, sid, old(Reads(arg)))
      ensures ok <==> sid == 0 || arg.NoName? || GoneWith(old(View()).slots, kind, sid, arg) != {}
    {
      hide Count, Wf;
      ghost var slots := entries[..n];
      ghost var gone := GoneWith(slots, kind, sid, arg);
      if listlen != 0 {
        for i := 0 to n
          invariant Valid()
          invariant forall k :: i <= k < n ==> entries[k] == slots[k]
          invariant forall k :: 0 <= k < i ==> entries[k] == if k in gone then FREE else slots[k]
          invariant sid != 0 && arg.Text? ==>
            forall k :: 0 <= k < i ==> !PermitMatch(slots[k], kind, sid, Some(arg.s))
        {
          var name := Reads(arg);
          assert PermitMatch(slots[i], kind, sid, name) <==> i in gone by {
            assert arg.NameOfSlot? ==> ClearedWith(slots, arg.i, arg.i);
          }
          if PermitMatch(entries[i], kind, sid, name) {
            FreeKeepsWf(View(), i);
            ghost var before := entries[..n];
            entries[i] := FREE;
            assert entries[..n] == before[i := FREE];
            listlen := listlen - 1;
            if sid != 0 && arg.Text? {
              assert forall k :: i < k < n ==> k !in gone;
              CounterIsCount(View());
              return true;
            }
          }
        }
        assert sid != 0 && arg.Text? ==> gone == {};
      } else {
        CounterIsCount(View());
        NoneUsed(View().slots, IsUsed);
        assert gone == {};
      }
      CounterIsCount(View());
      return sid == 0 || arg.NoName?;
    }

    /** ban_list_expire: a scan that removes each expired slot by its own name. */
    method Expire(now: int)
      requires Valid()
      modifies this`listlen, entries
      ensures Valid()
      ensures View() == ExpireAll(old(View()), now)
    {
      hide Count, Triggers, ClearedWith;
      ghost var slots := entries[..n];
      if listlen == 0 {
        NoneUsed(View().slots, IsUsed);
        NothingLapses(slots, now);
        return;
      }
      assert entries[..n] == Clear(slots, Lapsed(slots, now, 0));
      for i := 0 to n
        invariant Valid()
        invariant entries[..n] == Clear(slots, Lapsed(slots, now, i))
      {
        LapseStep(slots, now, i);
        if entries[i].kind != 0 && entries[i].expires != 0 && !(entries[i].expires > now) {
          var _ := Remove(entries[i].kind, 0, NameOfSlot(i));
        }
      }
    }
  }

  /** The slots a removal clears, for each kind of name argument. */
  function GoneWith(slots: seq<Entry>, kind: nat, sid: nat, arg: NameArg): set<int>
    requires arg.NameOfSlot? ==> arg.i < |slots|
  {
    match arg
    case NoName => Permitted(slots, kind, sid, None)
    case Text(s) => Permitted(slots, kind, sid, Some(s))
    case NameOfSlot(i) => set k | 0 <= k < |slots| && ClearedWith(slots, i, k)
  }

  /** The slots a removal leaves, written out: without a name all of the kind go, on the server or
      on all of them; with a name those that have it, but on one server only the first; and with
      a name that is read from a slot, that slot, those before it with its name, and those after
      it without one. */
  lemma RemovalWrittenOut(slots: seq<Entry>, kind: nat, sid: nat, arg: NameArg, k: nat)
    requires k < |slots| && kind != 0
    requires arg.NameOfSlot? ==> arg.i < |slots| && sid == 0 && slots[arg.i].kind == kind
    ensures var e := slots[k];
            Clear(slots, GoneWith(slots, kind, sid, arg))[k] ==
              if e.kind == kind && match arg
                case NoName => sid == 0 || e.sid == sid
                case Text(s) => e.name == s && (sid == 0 || (e.sid == sid && FirstOn(slots, k, kind, sid, s)))
                case NameOfSlot(i) => e.name == if k <= i then slots[i].name else ""
              then Entry(0, 0, "", "", "", 0) else e
  {
  }

  lemma NothingLapses(slots: seq<Entry>, now: int)
    requires forall i :: 0 <= i < |slots| ==> slots[i].kind == 0
    ensures Lapsed(slots, now, |slots|) == {}
    ensures Clear(slots, {}) == slots
  {
  }

  /** The earliest expired slot of a kind is always still there when the scan reaches it. */
  lemma FirstExpiredTriggers(slots: seq<Entry>, now: int, j: nat) returns (t: nat)
    requires j < |slots| && Expired(slots[j], now)
    ensures t <= j && slots[t].kind == slots[j].kind && Triggers(slots, t, now)
  {
    t := 0;
    while !(slots[t].kind == slots[j].kind && Expired(slots[t], now))
      invariant t <= j
      invariant forall i :: 0 <= i < t && slots[i].kind == slots[j].kind ==> !Expired(slots[i], now)
      decreases j - t
    {
      t := t + 1;
    }
  }

  /** One turn of the expiry scan. */
  lemma LapseStep(slots: seq<Entry>, now: int, i: nat)
    requires i < |slots|
    ensures var cur := Clear(slots, Lapsed(slots, now, i));
            && (Expired(cur[i], now) <==> Triggers(slots, i, now))
            && (Triggers(slots, i, now) ==>
                  Clear(cur, GoneWith(cur, cur[i].kind, 0, NameOfSlot(i))) == Clear(slots, Lapsed(slots, now, i + 1)))
            && (!Triggers(slots, i, now) ==> Lapsed(slots, now, i + 1) == Lapsed(slots, now, i))
  {
    var cur := Clear(slots, Lapsed(slots, now, i));
    if Expired(slots[i], now) && !Triggers(slots, i, now) {
      var j :| 0 <= j < i && slots[j].kind == slots[i].kind && Expired(slots[j], now);
      var t := FirstExpiredTriggers(slots, now, j);
      assert ClearedWith(slots, t, i);
      assert LapsesBefore(slots, now, i, i);
    }
    if Triggers(slots, i, now) {
      StillThere(slots, now, i);
      var next := Lapsed(slots, now, i + 1);
      var gone := GoneWith(cur, cur[i].kind, 0, NameOfSlot(i));
      forall k | 0 <= k < |slots| ensures k in next <==> k in Lapsed(slots, now, i) || k in gone {
        LapsesNext(slots, now, i, k);
      }
    } else {
      forall k | 0 <= k < |slots| ensures k in Lapsed(slots, now, i + 1) <==> k in Lapsed(slots, now, i) {
        LapsesNext(slots, now, i, k);
      }
    }
  }

  lemma StillThere(slots: seq<Entry>, now: int, i: nat)
    requires i < |slots| && Triggers(slots, i, now)
    ensures !LapsesBefore(slots, now, i, i)
  {
  }

  lemma LapsesNext(slots: seq<Entry>, now: int, i: nat, k: nat)
    requires i < |slots| && k < |slots|
    ensures LapsesBefore(slots, now, i + 1, k) <==>
      LapsesBefore(slots, now, i, k) || (Triggers(slots, i, now) && ClearedWith(slots, i, k))
  {
    if LapsesBefore(slots, now, i + 1, k) {
      var j :| 0 <= j < i + 1 && Triggers(slots, j, now) && ClearedWith(slots, j, k);
      assert j < i || j == i;
    }
    if LapsesBefore(slots, now, i, k) {
      var j :| 0 <= j < i && Triggers(slots, j, now) && ClearedWith(slots, j, k);
      assert 0 <= j < i + 1;
    }
  }

  /** Exactly which used slots outlive an expiry: those that are not expired, do not share
      kind and name with an expired slot further up that is reached in its place, and, if
      their name is empty, have no expired slot of their kind below them. */
  lemma ExpireSurvivors(b: Bans, now: int, k: nat)
    requires k < |b.slots| && b.slots[k].kind != 0
    ensures var e := b.slots[k];
            var e' := ExpireAll(b, now).slots[k];
            && (e' == e || e' == FREE)
            && (e' == e <==>
                && !Expired(e, now)
                && (forall i :: k < i < |b.slots| && Triggers(b.slots, i, now) && b.slots[i].kind == e.kind
                                ==> b.slots[i].name != e.name)
                && (e.name == "" ==>
                      forall i :: 0 <= i < k && b.slots[i].kind == e.kind ==> !Expired(b.slots[i], now)))
  {
    var slots, n := b.slots, |b.slots|;
    if Expired(slots[k], now) {
      ExpiredLapses(slots, now, k);
    } else if slots[k].name == ""
              && exists i :: 0 <= i < k && slots[i].kind == slots[k].kind && Expired(slots[i], now) {
      var i :| 0 <= i < k && slots[i].kind == slots[k].kind && Expired(slots[i], now);
      var t := FirstExpiredTriggers(slots, now, i);
      assert ClearedWith(slots, t, k);
      assert LapsesBefore(slots, now, n, k);
    } else if LapsesBefore(slots, now, n, k) {
      var i :| 0 <= i < n && Triggers(slots, i, now) && ClearedWith(slots, i, k);
      assert i > k;
    } else {
      forall i | k < i < n && Triggers(slots, i, now) && slots[i].kind == slots[k].kind
        ensures slots[i].name != slots[k].name
      {
        assert !ClearedWith(slots, i, k);
      }
    }
  }

  lemma ExpiredLapses(slots: seq<Entry>, now: int, k: nat)
    requires k < |slots| && Expired(slots[k], now)
    ensures LapsesBefore(slots, now, |slots|, k)
  {
    if Triggers(slots, k, now) {
      assert ClearedWith(slots, k, k);
    } else {
      var j :| 0 <= j < k && slots[j].kind == slots[k].kind && Expired(slots[j], now);
      var t := FirstExpiredTriggers(slots, now, j);
      assert ClearedWith(slots, t, k);
    }
  }

  /** After an expiry nothing expired is left, whatever names the slots hold. */
  lemma ExpireLeavesNoneExpired(b: Bans, now: int)
    ensures forall k :: 0 <= k < |b.slots| ==> !Expired(ExpireAll(b, now).slots[k], now)
    ensures forall k :: 0 <= k < |b.slots| ==>
      var e := ExpireAll(b, now).slots[k]; e.kind != 0 && e.expires != 0 ==> e.expires > now
  {
    forall k | 0 <= k < |b.slots| ensures !Expired(ExpireAll(b, now).slots[k], now) {
      if b.slots[k].kind != 0 {
        ExpireSurvivors(b, now, k);
      }
    }
  }

  /** A non-empty name shared with no expired slot of its kind is never disturbed. */
  lemma ExpireKeepsUnshared(b: Bans, now: int, k: nat)
    requires k < |b.slots| && b.slots[k].kind != 0 && b.slots[k].name != ""
    requires forall i :: 0 <= i < |b.slots| && b.slots[i].expires != 0 && b.slots[i].expires <= now ==>
      b.slots[i].kind != b.slots[k].kind || b.slots[i].name != b.slots[k].name
    ensures ExpireAll(b, now).slots[k] == b.slots[k]
  {
    ExpireSurvivors(b, now, k);
  }
}
