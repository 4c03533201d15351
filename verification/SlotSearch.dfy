/** The circular search for a free slot that ban_list_add and ban_event_list_add of
    contrib/mod_ban.c share, as a machine that makes one probe per turn.
*/
module SlotSearch {

  /** The loop's state: still probing, with the cursor and the seen flag, or stopped. */
  datatype Search =
    | Probing(cursor: nat, seen: bool)
    | Found(slot: nat)
    | Full(cursor: nat)

  /** One turn of the loop. entry is the cursor value recorded before the first turn. */
  function Turn(used: seq<bool>, entry: nat, s: Search): Search
    requires |used| > 0
  {
    match s
    case Probing(cursor, seen) =>
      var c := if cursor >= |used| then 0 else cursor;
      if !used[c] then Found(c)
      else if c == entry && seen then Full(c)
      else Probing(c + 1, true)
    case _ => s
  }

  function Turns(used: seq<bool>, entry: nat, k: nat): Search
    requires |used| > 0
  {
    if k == 0 then Probing(entry, false) else Turn(used, entry, Turns(used, entry, k - 1))
  }

  predicate HasFree(used: seq<bool>) {
    exists i :: 0 <= i < |used| && !used[i]
  }

  /** When the search stops at all. */
  predicate Stops(used: seq<bool>, entry: nat) {
    HasFree(used) || entry < |used|
  }

  /** Where the search ends, given that it does. */
  function Outcome(used: seq<bool>, entry: nat): Search
    requires |used| > 0
  {
    Turns(used, entry, |used| + 1)
  }

  /** The slot of probe number j, counting from the (wrapped) entry cursor. */
  function ProbedSlot(n: nat, entry: nat, j: nat): (slot: nat)
    requires 0 < n && j <= n
    ensures slot < n
  {
    var first := if entry >= n then 0 else entry;
    if first + j < n then first + j else first + j - n
  }

  /** While every probed slot is used, the search keeps going, one slot per turn. */
  lemma {:induction false} KeepsProbing(used: seq<bool>, entry: nat, k: nat)
    requires |used| > 0 && 0 < k <= |used|
    requires forall j :: 0 <= j < k ==> used[ProbedSlot(|used|, entry, j)]
    ensures Turns(used, entry, k) == Probing(ProbedSlot(|used|, entry, k - 1) + 1, true)
  {
    assert used[ProbedSlot(|used|, entry, k - 1)];
    if k == 1 {
      assert Turns(used, entry, 0) == Probing(entry, false);
    } else {
      KeepsProbing(used, entry, k - 1);
    }
  }

  /** Every slot is probed within the first n turns. */
  lemma ProbesEverySlot(n: nat, entry: nat, slot: nat) returns (j: nat)
    requires slot < n
    ensures j < n && ProbedSlot(n, entry, j) == slot
  {
    var first := if entry >= n then 0 else entry;
    j := if slot >= first then slot - first else slot + n - first;
  }

  lemma {:induction false} StoppedStays(used: seq<bool>, entry: nat, k: nat, m: nat)
    requires |used| > 0 && k <= m
    requires !Turns(used, entry, k).Probing?
    ensures Turns(used, entry, m) == Turns(used, entry, k)
  {
    if k < m {
      StoppedStays(used, entry, k, m - 1);
    }
  }

  /** With a free slot the search finds the first one in probing order. */
  lemma {:induction false} FindsFirstFree(used: seq<bool>, entry: nat, j: nat)
    requires |used| > 0 && j < |used|
    requires !used[ProbedSlot(|used|, entry, j)]
    requires forall i :: 0 <= i < j ==> used[ProbedSlot(|used|, entry, i)]
    ensures Turns(used, entry, j + 1) == Found(ProbedSlot(|used|, entry, j))
    ensures Outcome(used, entry) == Found(ProbedSlot(|used|, entry, j))
  {
    if j == 0 {
      assert Turns(used, entry, 0) == Probing(entry, false);
    } else {
      KeepsProbing(used, entry, j);
    }
    StoppedStays(used, entry, j + 1, |used| + 1);
  }

  lemma FirstFreeProbe(used: seq<bool>, entry: nat) returns (j: nat)
    requires HasFree(used)
    ensures j < |used| && !used[ProbedSlot(|used|, entry, j)]
    ensures forall i :: 0 <= i < j ==> used[ProbedSlot(|used|, entry, i)]
  {
    var free :| 0 <= free < |used| && !used[free];
    var bound := ProbesEverySlot(|used|, entry, free);
    j := 0;
    while used[ProbedSlot(|used|, entry, j)]
      invariant 0 <= j <= bound
      invariant forall i :: 0 <= i < j ==> used[ProbedSlot(|used|, entry, i)]
      decreases bound - j
    {
      j := j + 1;
    }
  }

  /** Within n + 1 turns the search has stopped exactly when a free slot exists or the entry
      cursor was below n; it then succeeds exactly when a free slot exists, and on failure
      the cursor is back where it began. */
  lemma {:induction false} SearchOutcome(used: seq<bool>, entry: nat)
    requires |used| > 0
    ensures !Outcome(used, entry).Probing? <==> Stops(used, entry)
    ensures Outcome(used, entry).Found? <==> HasFree(used)
    ensures Outcome(used, entry).Found? ==>
      Outcome(used, entry).slot < |used| && !used[Outcome(used, entry).slot]
    ensures !HasFree(used) && entry < |used| ==> Outcome(used, entry) == Full(entry)
  {
    if HasFree(used) {
      var j := FirstFreeProbe(used, entry);
      FindsFirstFree(used, entry, j);
    } else {
      KeepsProbing(used, entry, |used|);
    }
  }

  /** The other half: a full table entered with the cursor at n is searched for ever. */
  lemma {:induction false} FullWrappedSearchNeverStops(used: seq<bool>, entry: nat, k: nat)
    requires |used| > 0 && !Stops(used, entry)
    ensures Turns(used, entry, k).Probing?
  {
    if k > 0 {
      FullWrappedSearchNeverStops(used, entry, k - 1);
    }
  }

  // ----- The loop in memory -----

  /** Which slots are used. */
  function Marks<E>(slots: seq<E>, isUsed: E -> bool): (used: seq<bool>)
    ensures |used| == |slots|
    ensures forall i :: 0 <= i < |slots| ==> used[i] == isUsed(slots[i])
  {
    seq(|slots|, i requires 0 <= i < |slots| => isUsed(slots[i]))
  }

  /** The search loop that ban_list_add and ban_event_list_add repeat, over the first n slots:
      the cursor ends on the free slot, or back where it was. */
  method Seek<E>(entries: array<E>, n: nat, isUsed: E -> bool, entry: nat) returns (found: bool, cursor: nat)
    requires 0 < n <= entries.Length
    requires Stops(Marks(entries[..n], isUsed), entry)
    ensures Outcome(Marks(entries[..n], isUsed), entry) == if found then Found(cursor) else Full(cursor)
  {
    hide Count;
    cursor := entry;
    var seen := false;
    ghost var used := Marks(entries[..n], isUsed);
    ghost var turns := 0;
    SearchOutcome(used, entry);
    while true
      invariant 0 <= turns <= n
      invariant Turns(used, entry, turns) == Probing(cursor, seen)
      decreases n - turns
    {
      turns := turns + 1;
      if cursor >= n {
        cursor := 0;
      }
      assert used[cursor] == isUsed(entries[cursor]);
      if !isUsed(entries[cursor]) || (cursor == entry && seen) {
        found := !isUsed(entries[cursor]);
        StoppedStays(used, entry, turns, n + 1);
        return;
      }
      cursor := cursor + 1;
      seen := true;
    }
  }

  // ----- Counting used slots -----

  function Count(used: seq<bool>): nat {
    if used == [] then 0 else (if used[0] then 1 else 0) + Count(used[1..])
  }

  lemma {:induction false} CountUpdate(used: seq<bool>, i: nat, b: bool)
    requires i < |used|
    ensures Count(used[i := b]) == Count(used) - (if used[i] then 1 else 0) + (if b then 1 else 0)
  {
    if i == 0 {
      assert used[0 := b][1..] == used[1..];
    } else {
      assert used[i := b][1..] == used[1..][i - 1 := b];
      CountUpdate(used[1..], i - 1, b);
    }
  }

  lemma {:induction false} CountBounds(used: seq<bool>)
    ensures Count(used) <= |used|
    ensures Count(used) < |used| <==> HasFree(used)
    ensures Count(used) == 0 <==> forall i :: 0 <= i < |used| ==> !used[i]
  {
    if used != [] {
      CountBounds(used[1..]);
      if HasFree(used) && used[0] {
        var i :| 0 <= i < |used| && !used[i];
        assert !used[1..][i - 1];
      }
      if !used[0] && Count(used[1..]) == 0 {
        forall i | 0 <= i < |used| ensures !used[i] {
          if i > 0 {
            assert !used[1..][i - 1];
          }
        }
      }
    }
  }

  /** The count of used slots after one slot has changed. */
  lemma CountAfterUpdate<E>(slots: seq<E>, isUsed: E -> bool, i: nat, e: E)
    requires i < |slots|
    ensures Count(Marks(slots[i := e], isUsed))
         == Count(Marks(slots, isUsed)) - (if isUsed(slots[i]) then 1 else 0) + (if isUsed(e) then 1 else 0)
  {
    assert Marks(slots[i := e], isUsed) == Marks(slots, isUsed)[i := isUsed(e)];
    CountUpdate(Marks(slots, isUsed), i, isUsed(e));
  }

  lemma NoneUsed<E>(slots: seq<E>, isUsed: E -> bool)
    requires Count(Marks(slots, isUsed)) == 0
    ensures forall i :: 0 <= i < |slots| ==> !isUsed(slots[i])
  {
    CountBounds(Marks(slots, isUsed));
    assert forall i :: 0 <= i < |slots| ==> !Marks(slots, isUsed)[i];
  }
}
