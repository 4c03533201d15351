/** Runs on the tally table of contrib/mod_quotatab_file.c: the file stands for a list of
    tallies, and every operation on the file is that operation on the list.
*/
module TallyRuns {
  import opened Basics
  import opened TallyFile

  // ----- The table a file stands for -----

  /** Tallies and the one the offset is on; at == |tallies| at the end of the file. */
  datatype Table = Table(tallies: seq<Tally>, at: nat)

  predicate TableOk(t: Table) {
    t.at <= |t.tallies| && forall i :: 0 <= i < |t.tallies| ==> TallyOk(t.tallies[i])
  }

  ghost function Tallies(data: seq<Byte>): (ts: seq<Tally>)
    requires WellFormed(data)
    ensures |ts| == Size(data)
    ensures forall i :: 0 <= i < |ts| ==> ts[i] == Decode(Records(data)[i]) && TallyOk(ts[i])
  {
    seq(Size(data), i requires 0 <= i < Size(data) => Decode(Records(data)[i]))
  }

  ghost predicate Aligned(file: File)
    reads file
  {
    WellFormed(file.data) && HEADER <= file.pos <= |file.data| && (file.pos - HEADER) % RECORD == 0
  }

  ghost function View(file: File): (t: Table)
    reads file
    requires Aligned(file)
    ensures TableOk(t) && file.pos == Offset(t.at)
  {
    Table(Tallies(file.data), (file.pos - HEADER) / RECORD)
  }

  /** Encoded tallies of the same file are its records. */
  lemma EncodedTally(data: seq<Byte>, i: nat)
    requires WellFormed(data) && i < Size(data)
    ensures Offset(i) + RECORD <= |data|
    ensures Encode(Tallies(data)[i]) == RecordAt(data, i)
  {
    hide Encode, Decode;
    RecordsAreDisjoint(i, Size(data));
    EncodeDecode(Records(data)[i]);
  }

  lemma SpliceTally(data: seq<Byte>, i: nat, t: Tally)
    requires WellFormed(data) && i <= Size(data) && TallyOk(t)
    ensures WellFormed(Splice(data, Offset(i), Encode(t)))
    ensures Tallies(Splice(data, Offset(i), Encode(t)))
         == if i < Size(data) then Tallies(data)[i := t] else Tallies(data) + [t]
  {
    hide Encode, Decode, Splice, Records;
    SpliceRecord(data, i, Encode(t));
    DecodeEncode(t);
  }

  // ----- Operations on the list -----

  /** The outcome of the system calls of one operation: the interruptions or hard error, and how
      many bytes a write took. */
  datatype Op =
    | Create(t: Tally, io: seq<Io>, wrote: nat)
    | Lookup(name: Option<seq<Byte>>, quotaType: Word32, ios: seq<seq<Io>>)
    | Read(io: seq<Io>)
    | Write(t: Tally, io: seq<Io>, wrote: nat)

  predicate OpOk(op: Op) {
    op.Create? || op.Write? ==> TallyOk(op.t) && op.wrote <= RECORD
  }

  predicate Happens(io: seq<Io>, wrote: nat) {
    Failed !in io && wrote > 0
  }

  /** What the operation appends, it appends whole. */
  predicate Whole(t: Table, op: Op) {
    op.Create? || (op.Write? && t.at == |t.tallies|) ==> Happens(op.io, op.wrote) ==> op.wrote == RECORD
  }

  /** Where a lookup stops: at the first tally that matches or whose read fails, or at the end. */
  function Stop(ts: seq<Tally>, name: Option<seq<Byte>>, quotaType: Word32, ios: seq<seq<Io>>, i: nat): (k: nat)
    requires i <= |ts|
    ensures i <= k <= |ts|
    ensures k < |ts| ==> FailsAt(ios, k) || IsMatch(ts[k], name, quotaType)
    ensures forall j :: i <= j < k ==> !FailsAt(ios, j) && !IsMatch(ts[j], name, quotaType)
    decreases |ts| - i
  {
    if i == |ts| || FailsAt(ios, i) || IsMatch(ts[i], name, quotaType) then i
    else Stop(ts, name, quotaType, ios, i + 1)
  }

  /** A tally of which only the first bytes were overwritten. */
  function Mixed(before: Tally, t: Tally, wrote: nat): (r: Tally)
    requires TallyOk(before) && TallyOk(t) && wrote <= RECORD
    ensures TallyOk(r)
  {
    Decode(Encode(t)[..wrote] + Encode(before)[wrote..])
  }

  lemma WholeIsNotMixed(before: Tally, t: Tally)
    requires TallyOk(before) && TallyOk(t)
    ensures Mixed(before, t, RECORD) == t
  {
    hide Encode, Decode;
    assert Encode(t)[..RECORD] + Encode(before)[RECORD..] == Encode(t);
    DecodeEncode(t);
  }

  function Apply(t: Table, op: Op): Table
    requires TableOk(t) && OpOk(op)
  {
    match op
    case Create(r, io, wrote) =>
      Table(if Happens(io, wrote) then t.tallies + [r] else t.tallies, |t.tallies|)
    case Lookup(name, quotaType, ios) => t.(at := Stop(t.tallies, name, quotaType, ios, 0))
    case Read(_) => t
    case Write(r, io, wrote) =>
      if !Happens(io, wrote) then t
      else if t.at < |t.tallies| then t.(tallies := t.tallies[t.at := Mixed(t.tallies[t.at], r, wrote)])
      else t.(tallies := t.tallies + [r])
  }

  /** The tally the caller is given, if any. */
  function Gives(t: Table, op: Op): Option<Tally>
    requires TableOk(t) && OpOk(op)
  {
    match op
    case Lookup(name, quotaType, ios) =>
      var k := Stop(t.tallies, name, quotaType, ios, 0);
      if k < |t.tallies| && !FailsAt(ios, k) then Some(t.tallies[k]) else None
    case Read(io) => if Failed !in io && t.at < |t.tallies| then Some(t.tallies[t.at]) else None
    case _ => None
  }

  lemma ApplyKeepsOk(t: Table, op: Op)
    requires TableOk(t) && OpOk(op)
    ensures TableOk(Apply(t, op))
  {
    hide Encode, Decode;
  }

  /** A whole write stores exactly the new tally, wherever the offset is, and a read after it
      gives that tally. */
  lemma WholeWriteIsRead(t: Table, r: Tally, io: seq<Io>, io': seq<Io>)
    requires TableOk(t) && TallyOk(r) && Failed !in io && Failed !in io'
    ensures var t' := Apply(t, Write(r, io, RECORD));
            && t' == t.(tallies := if t.at < |t.tallies| then t.tallies[t.at := r] else t.tallies + [r])
            && TableOk(t') && Gives(t', Read(io')) == Some(r)
  {
    hide Encode, Decode, Mixed;
    if t.at < |t.tallies| {
      WholeIsNotMixed(t.tallies[t.at], r);
    }
    ApplyKeepsOk(t, Write(r, io, RECORD));
  }

  function ApplyAll(t: Table, ops: seq<Op>): (t': Table)
    requires TableOk(t) && forall i :: 0 <= i < |ops| ==> OpOk(ops[i])
    ensures TableOk(t')
    decreases |ops|
  {
    if ops == [] then t else
      var k := |ops| - 1;
      ApplyKeepsOk(ApplyAll(t, ops[..k]), ops[k]);
      Apply(ApplyAll(t, ops[..k]), ops[k])
  }

  // ----- The file follows the list -----

  /** A lookup over the bytes of a well-formed file is a lookup over its tallies. */
  lemma {:induction false} ScanStops(data: seq<Byte>, i: nat, buf: seq<Byte>, ios: seq<seq<Io>>,
                                     name: Option<seq<Byte>>, quotaType: Word32)
    requires WellFormed(data) && i <= Size(data) && |buf| == RECORD
    ensures var r := Scan(data, i, buf, ios, name, quotaType);
            var k := Stop(Tallies(data), name, quotaType, ios, i);
            && r.pos == Offset(k)
            && (r.found <==> k < Size(data) && !FailsAt(ios, k))
            && (r.found ==> Decode(r.buf) == Tallies(data)[k])
    decreases Size(data) - i
  {
    hide Decode, IsMatch, Records, Filled, FailsAt;
    if i < Size(data) {
      RecordsAreDisjoint(i, Size(data));
      ReadIsTally(data, i, buf);
      var buf' := Filled(data, Offset(i), buf);
      if !FailsAt(ios, i) && !IsMatch(Decode(buf'), name, quotaType) {
        ScanStops(data, i + 1, buf', ios, name, quotaType);
      }
    }
  }

  /** A header and the records of some tallies. */
  function FileOf(header: seq<Byte>, ts: seq<Tally>): (data: seq<Byte>)
    requires forall i :: 0 <= i < |ts| ==> TallyOk(ts[i])
    ensures |data| == |header| + 121 * |ts|
    decreases |ts|
  {
    if ts == [] then header else FileOf(header, ts[..|ts| - 1]) + Encode(ts[|ts| - 1])
  }

  /** Four bytes of header and the records of any tallies are a well-formed file that stands for
      those tallies. */
  lemma {:induction false} FileStandsForTallies(header: seq<Byte>, ts: seq<Tally>)
    requires |header| == 4 && forall i :: 0 <= i < |ts| ==> TallyOk(ts[i])
    ensures WellFormed(FileOf(header, ts)) && Tallies(FileOf(header, ts)) == ts
    decreases |ts|
  {
    hide Encode, Decode, Records, Splice;
    if ts != [] {
      var k := |ts| - 1;
      var before := FileOf(header, ts[..k]);
      FileStandsForTallies(header, ts[..k]);
      AppendIsSplice(before, Encode(ts[k]));
      SpliceTally(before, k, ts[k]);
      assert ts == ts[..k] + [ts[k]];
    }
  }

  /** The lookup in numbers: on such a file it ends at offset 4 + 121 k with the k-th tally, the
      first that matches; and at the end of the file if none does. */
  lemma {:induction false} LookupInNumbers(header: seq<Byte>, ts: seq<Tally>, buf: seq<Byte>,
                                           name: Option<seq<Byte>>, quotaType: Word32, k: nat)
    requires |header| == 4 && forall i :: 0 <= i < |ts| ==> TallyOk(ts[i])
    requires |buf| == 121 && k <= |ts| && (k < |ts| ==> IsMatch(ts[k], name, quotaType))
    requires forall j :: 0 <= j < k ==> !IsMatch(ts[j], name, quotaType)
    ensures var r := Scan(FileOf(header, ts), 0, buf, [], name, quotaType);
            r.pos == 4 + 121 * k && (r.found <==> k < |ts|) && (r.found ==> Decode(r.buf) == ts[k])
  {
    hide Encode, Decode, Scan, IsMatch, FileOf, Tallies;
    FileStandsForTallies(header, ts);
    ScanStops(FileOf(header, ts), 0, buf, [], name, quotaType);
  }

  /** Without hard errors a lookup finds the first tally that matches. */
  lemma LookupFindsFirstMatch(t: Table, name: Option<seq<Byte>>, quotaType: Word32, ios: seq<seq<Io>>, k: nat)
    requires TableOk(t) && forall i :: 0 <= i < |ios| ==> Failed !in ios[i]
    requires k < |t.tallies| && IsMatch(t.tallies[k], name, quotaType)
    requires forall j :: 0 <= j < k ==> !IsMatch(t.tallies[j], name, quotaType)
    ensures Apply(t, Lookup(name, quotaType, ios)) == t.(at := k)
    ensures Gives(t, Lookup(name, quotaType, ios)) == Some(t.tallies[k])
  {
    hide IsMatch;
  }

  /** One operation on the file is that operation on the list, whatever the system calls do. */
  method Perform(file: File, op: Op, buf: seq<Byte>) returns (given: Option<Tally>, buf': seq<Byte>)
    requires Aligned(file) && |buf| == RECORD && OpOk(op) && Whole(View(file), op)
    modifies file`data, file`pos
    ensures Aligned(file) && |buf'| == RECORD
    ensures View(file) == Apply(old(View(file)), op)
    ensures given == Gives(old(View(file)), op)
  {
    hide Stop, Splice, Encode, Decode, Scan, Records;
    given, buf' := None, buf;
    ghost var t := View(file);
    match op
    case Create(r, io, wrote) =>
      AppendIsSplice(file.data, Encode(r));
      SpliceTally(file.data, |t.tallies|, r);
      WholePrefix(Encode(r));
      var _ := file.CreateRecord(Encode(r), io, wrote);
    case Lookup(name, quotaType, ios) =>
      ScanStops(file.data, 0, buf, ios, name, quotaType);
      var found;
      found, buf' := file.LookupRecord(buf, ios, name, quotaType);
      given := if found then Some(Decode(buf')) else None;
    case Read(io) =>
      ReadIsTally(file.data, t.at, buf);
      var res;
      res, buf' := file.ReadRecord(buf, io);
      given := if res >= 0 then Some(Decode(buf')) else None;
    case Write(r, io, wrote) =>
      WriteIsTally(file.data, t.at, r, wrote);
      var _ := file.WriteRecord(Encode(r), io, wrote);
  }

  lemma WholePrefix(b: seq<Byte>)
    requires |b| == RECORD
    ensures b[..RECORD] == b
  {
  }

  lemma ReadIsTally(data: seq<Byte>, i: nat, buf: seq<Byte>)
    requires WellFormed(data) && i <= Size(data) && |buf| == RECORD
    ensures i < Size(data) ==> Offset(i) < |data| && Decode(Filled(data, Offset(i), buf)) == Tallies(data)[i]
    ensures i == Size(data) ==> Offset(i) == |data|
  {
    hide Decode;
    if i < Size(data) {
      RecordsAreDisjoint(i, Size(data));
      assert Filled(data, Offset(i), buf) == Records(data)[i];
    }
  }

  /** A write inside the file changes one tally, wholly or in its first bytes; at the end a whole
      one is appended. */
  lemma WriteIsTally(data: seq<Byte>, i: nat, r: Tally, wrote: nat)
    requires WellFormed(data) && i <= Size(data) && TallyOk(r) && wrote <= RECORD
    ensures Offset(i) <= |data|
    ensures i < Size(data) || wrote == RECORD ==> WellFormed(Splice(data, Offset(i), Encode(r)[..wrote]))
    ensures i < Size(data) ==>
      Tallies(Splice(data, Offset(i), Encode(r)[..wrote])) == Tallies(data)[i := Mixed(Tallies(data)[i], r, wrote)]
    ensures i == Size(data) && wrote == RECORD ==>
      Tallies(Splice(data, Offset(i), Encode(r)[..wrote])) == Tallies(data) + [r]
  {
    hide Splice, Encode, Decode, Records;
    if i < Size(data) {
      RecordsAreDisjoint(i, Size(data));
      var part := Encode(r)[..wrote];
      PartOfRecord(data, i, part);
      EncodedTally(data, i);
      var mixed := Mixed(Tallies(data)[i], r, wrote);
      EncodeDecode(part + RecordAt(data, i)[wrote..]);
      SpliceTally(data, i, mixed);
    } else {
      WholePrefix(Encode(r));
      SpliceTally(data, i, r);
    }
  }

  lemma AppendIsSplice(data: seq<Byte>, r: seq<Byte>)
    requires WellFormed(data)
    ensures |data| == Offset(Size(data))
    ensures Splice(data, |data|, r) == data + r
  {
    assert data[..|data|] == data;
  }

  /** Every append of the run is whole. */
  ghost predicate AllWhole(t: Table, ops: seq<Op>)
    requires TableOk(t) && forall i :: 0 <= i < |ops| ==> OpOk(ops[i])
  {
    forall i :: 0 <= i < |ops| ==> Whole(ApplyAll(t, ops[..i]), ops[i])
  }

  /** Any run on a well-formed file, interrupted, failing and short calls included, leaves a
      well-formed file that stands for what the same run makes of the list of tallies, and gives
      the caller the same tallies. */
  method Run(file: File, ops: seq<Op>, buf: seq<Byte>) returns (given: seq<Option<Tally>>)
    requires Aligned(file) && |buf| == RECORD
    requires forall i :: 0 <= i < |ops| ==> OpOk(ops[i])
    requires AllWhole(View(file), ops)
    modifies file
    ensures Aligned(file)
    ensures |file.data| == 4 + 121 * |View(file).tallies|
    ensures View(file) == ApplyAll(old(View(file)), ops)
    ensures |given| == |ops|
    ensures forall i :: 0 <= i < |ops| ==> given[i] == Gives(ApplyAll(old(View(file)), ops[..i]), ops[i])
  {
    hide Apply, Gives, Tallies, Whole;
    var b := buf;
    given := [];
    for n := 0 to |ops|
      invariant Aligned(file) && |b| == RECORD
      invariant View(file) == ApplyAll(old(View(file)), ops[..n])
      invariant |given| == n
      invariant forall i :: 0 <= i < n ==> given[i] == Gives(ApplyAll(old(View(file)), ops[..i]), ops[i])
    {
      assert ops[..n + 1][..n] == ops[..n];
      var g;
      g, b := Perform(file, ops[n], b);
      given := given + [g];
    }
    assert ops[..|ops|] == ops;
  }

  // ----- Working on one record under its lock -----

  datatype RecordOp =
    | Lock(mode: LockMode, granted: bool)
    | Unlock
    | Fetch(io: seq<Io>)
    | Store(t: Tally, io: seq<Io>, wrote: nat)

  predicate RecordOpOk(op: RecordOp) {
    op.Store? ==> TallyOk(op.t) && op.wrote <= RECORD
  }

  /** The tally after one operation: what was stored, mixed with the tally before if cut short. */
  function Stored(t: Tally, op: RecordOp): (r: Tally)
    requires TallyOk(t) && RecordOpOk(op)
    ensures TallyOk(r)
  {
    if op.Store? && Happens(op.io, op.wrote) then Mixed(t, op.t, op.wrote) else t
  }

  /** What one operation sees; a fetch that fails sees nothing. */
  function SeenBy(t: Tally, op: RecordOp): seq<Option<Tally>> {
    if op.Fetch? then [if Failed !in op.io then Some(t) else None] else []
  }

  /** A whole store leaves exactly the new tally. */
  lemma WholeStoreIsExact(t: Tally, r: Tally, io: seq<Io>)
    requires TallyOk(t) && TallyOk(r) && Failed !in io
    ensures Stored(t, Store(r, io, RECORD)) == r
  {
    hide Mixed;
    WholeIsNotMixed(t, r);
  }

  function Current(t: Tally, ops: seq<RecordOp>): (r: Tally)
    requires TallyOk(t) && forall i :: 0 <= i < |ops| ==> RecordOpOk(ops[i])
    ensures TallyOk(r)
    decreases |ops|
  {
    if ops == [] then t else Stored(Current(t, ops[..|ops| - 1]), ops[|ops| - 1])
  }

  /** What the fetches of a session see, starting from a tally. */
  function Fetched(t: Tally, ops: seq<RecordOp>): (seen: seq<Option<Tally>>)
    requires TallyOk(t) && forall i :: 0 <= i < |ops| ==> RecordOpOk(ops[i])
    decreases |ops|
  {
    if ops == [] then [] else
      var k := |ops| - 1;
      Fetched(t, ops[..k]) + SeenBy(Current(t, ops[..k]), ops[k])
  }

  /** A fetch that does not fail sees what the record holds at that time. */
  lemma FetchSeesCurrent(t: Tally, ops: seq<RecordOp>, io: seq<Io>)
    requires TallyOk(t) && (forall i :: 0 <= i < |ops| ==> RecordOpOk(ops[i])) && Failed !in io
    ensures Fetched(t, ops + [Fetch(io)]) == Fetched(t, ops) + [Some(Current(t, ops))]
    ensures Current(t, ops + [Fetch(io)]) == Current(t, ops)
  {
    hide Mixed;
    assert (ops + [Fetch(io)])[..|ops|] == ops;
  }

  /** Stored whole and then fetched, a tally is seen as it was stored. */
  lemma FetchSeesStore(t: Tally, ops: seq<RecordOp>, r: Tally, io: seq<Io>, io': seq<Io>)
    requires TallyOk(t) && (forall i :: 0 <= i < |ops| ==> RecordOpOk(ops[i]))
    requires TallyOk(r) && Failed !in io && Failed !in io'
    ensures var all := ops + [Store(r, io, 121)];
            Fetched(t, all + [Fetch(io')]) == Fetched(t, ops) + [Some(r)]
  {
    hide Mixed;
    var all := ops + [Store(r, io, 121)];
    assert all[..|ops|] == ops;
    WholeStoreIsExact(Current(t, ops), r, io);
    FetchSeesCurrent(t, all, io');
  }

  ghost predicate SameOutside(locks: nat -> Option<LockMode>, locks': nat -> Option<LockMode>, pos: nat) {
    forall p: nat :: !(pos <= p < pos + 121) ==> locks(p) == locks'(p)
  }

  ghost predicate NoneLocked(locks: nat -> Option<LockMode>, pos: nat) {
    forall p: nat :: pos <= p < pos + 121 ==> locks(p) == None
  }

  method SessionStep(file: File, op: RecordOp, buf: seq<Byte>) returns (seen: seq<Option<Tally>>, buf': seq<Byte>)
    requires Aligned(file) && View(file).at < |View(file).tallies| && |buf| == RECORD && RecordOpOk(op)
    modifies file
    ensures Aligned(file) && file.pos == old(file.pos) && |buf'| == RECORD
    ensures var t := old(View(file));
            && View(file) == t.(tallies := t.tallies[t.at := Stored(t.tallies[t.at], op)])
            && seen == SeenBy(t.tallies[t.at], op)
    ensures SameOutside(old(file.locks), file.locks, file.pos)
    ensures op.Unlock? ==> NoneLocked(file.locks, file.pos)
  {
    hide Tallies, Mixed, Stop;
    seen, buf' := [], buf;
    ghost var t := View(file);
    assert t.tallies == t.tallies[t.at := t.tallies[t.at]];
    match op {
      case Lock(mode, granted) =>
        var _ := file.SetLock(mode, granted);
      case Unlock =>
        file.ClearLock();
      case Fetch(io) =>
        var g;
        g, buf' := Perform(file, Read(io), buf);
        seen := [g];
      case Store(r, io, wrote) =>
        var g;
        g, buf' := Perform(file, Write(r, io, wrote), buf);
    }
  }

  /** filetab_rlock, filetab_wlock, filetab_unlock, read and write after a successful lookup:
      the offset never moves, so all of them act on the one record it is on. The fetches see
      what was last stored, no other record and no other lock changes, and after an unlock
      nothing of the record stays locked. */
  method Session(file: File, ops: seq<RecordOp>, buf: seq<Byte>) returns (seen: seq<Option<Tally>>)
    requires Aligned(file) && View(file).at < |View(file).tallies| && |buf| == RECORD
    requires forall i :: 0 <= i < |ops| ==> RecordOpOk(ops[i])
    modifies file
    ensures Aligned(file) && file.pos == old(file.pos)
    ensures var t := old(View(file));
            && View(file) == t.(tallies := t.tallies[t.at := Current(t.tallies[t.at], ops)])
            && seen == Fetched(t.tallies[t.at], ops)
    ensures SameOutside(old(file.locks), file.locks, file.pos)
    ensures ops != [] && ops[|ops| - 1].Unlock? ==> NoneLocked(file.locks, file.pos)
  {
    hide Tallies, Stored, SeenBy, NoneLocked;
    seen := [];
    var b := buf;
    ghost var t := View(file);
    assert t.tallies == t.tallies[t.at := t.tallies[t.at]];
    for n := 0 to |ops|
      invariant Aligned(file) && |b| == RECORD && file.pos == old(file.pos)
      invariant View(file) == t.(tallies := t.tallies[t.at := Current(t.tallies[t.at], ops[..n])])
      invariant seen == Fetched(t.tallies[t.at], ops[..n])
      invariant SameOutside(old(file.locks), file.locks, file.pos)
      invariant n > 0 && ops[n - 1].Unlock? ==> NoneLocked(file.locks, file.pos)
    {
      assert ops[..n + 1][..n] == ops[..n];
      var g;
      g, b := SessionStep(file, ops[n], b);
      seen := seen + g;
    }
    assert ops[..|ops|] == ops;
  }
}
