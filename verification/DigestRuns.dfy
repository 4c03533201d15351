/** Runs of the digest cache of contrib/mod_digest.c: what is answered, what is held and how
    much of it, over any sequence of requests, expiry timers and finished transfers.
*/
module DigestRuns {
  import opened Basics
  import opened CacheKey
  import Crc32
  import opened DigestCache
  import opened DigestFile

  datatype Op =
    | Query(q: Request, schedule: seq<ReadOutcome>)
    | Timer(now: int)
    | Transfer(algo: Algo, path: string, mtime: Int64, len: Size, hex: string)

  /** The tables after one operation. A finished transfer is cached without a look at the size. */
  ghost function Step(cfg: Config, tabs: Tables, op: Op, hash: Hash): (r: Tables)
    requires Complete(tabs)
    ensures Complete(r)
  {
    match op
    case Query(q, _) => AfterRequest(cfg, tabs, q, hash)
    case Timer(now) => Pruned(cfg, tabs, now)
    case Transfer(algo, path, mtime, len, hex) =>
      if cfg.caching then Insert(tabs, algo, KeyFor(path, mtime, 0, len), hex) else tabs
  }

  /** The tables after a whole run from the empty cache. */
  ghost function After(cfg: Config, ops: seq<Op>, hash: Hash): (r: Tables)
    ensures Complete(r)
    decreases |ops|
  {
    if ops == [] then EmptyIsComplete(); EMPTY
    else Step(cfg, After(cfg, ops[..|ops| - 1], hash), ops[|ops| - 1], hash)
  }

  /** What the i-th operation of a run is answered. */
  ghost function AnswerAt(cfg: Config, ops: seq<Op>, hash: Hash, i: nat): Option<string>
    requires i < |ops|
  {
    match ops[i]
    case Query(q, _) => Answer(cfg, After(cfg, ops[..i], hash), q, hash)
    case _ => None
  }

  /** The operation's insert finds its key in the table. */
  ghost predicate RefusedBy(cfg: Config, tabs: Tables, op: Op)
    requires Complete(tabs)
  {
    match op
    case Query(q, _) => Refuses(cfg, tabs, q)
    case Timer(_) => false
    case Transfer(algo, path, mtime, len, _) => cfg.caching && KeyFor(path, mtime, 0, len) in tabs[algo]
  }

  /** How many inserts of a run find their key in the table. */
  ghost function Refused(cfg: Config, ops: seq<Op>, hash: Hash): nat
    decreases |ops|
  {
    if ops == [] then 0 else
      var k := |ops| - 1;
      Refused(cfg, ops[..k], hash) + if RefusedBy(cfg, After(cfg, ops[..k], hash), ops[k]) then 1 else 0
  }

  /** The cache in memory answers every request and holds every entry as specified. */
  method Run(cfg: Config, ops: seq<Op>, hash: Hash) returns (answers: seq<Option<string>>, c: Cache)
    requires forall i :: 0 <= i < |ops| && ops[i].Query? && ops[i].q.file.Present? ==> ops[i].q.file.blksize > 0
    ensures c.Valid() && c.tabs == After(cfg, ops, hash)
    ensures |c.keys| == Total(c.tabs) + Refused(cfg, ops, hash)
    ensures |answers| == |ops|
    ensures forall i :: 0 <= i < |ops| ==> answers[i] == AnswerAt(cfg, ops, hash, i)
  {
    hide KeyFor, Total, Consistent, AfterRequest, Answer, Pruned, Insert, Refuses;
    c := new Cache(cfg);
    answers := [];
    for k := 0 to |ops|
      invariant fresh(c) && c.Valid() && c.cfg == cfg && c.tabs == After(cfg, ops[..k], hash)
      invariant c.refused == Refused(cfg, ops[..k], hash)
      invariant |answers| == k
      invariant forall i :: 0 <= i < k ==> answers[i] == AnswerAt(cfg, ops, hash, i)
    {
      assert ops[..k + 1][..k] == ops[..k];
      var answer := None;
      match ops[k] {
        case Query(q, schedule) =>
          answer := c.GetDigest(q, hash, schedule);
        case Timer(now) =>
          c.Expire(now);
        case Transfer(algo, path, mtime, len, hex) =>
          var _ := c.AddCached(algo, path, mtime, 0, len, hex);
      }
      answers := answers + [answer];
    }
    assert ops[..|ops|] == ops;
    NodesAreCounted(c);
  }

  lemma NodesAreCounted(c: Cache)
    requires c.Valid()
    ensures |c.keys| == Total(c.tabs) + c.refused
  {
  }

  // ----- Nodes that stay behind -----

  /** The i-th insert of the run finds its key in the table. */
  ghost predicate RefusedAt(cfg: Config, ops: seq<Op>, hash: Hash, i: nat) {
    i < |ops| && RefusedBy(cfg, After(cfg, ops[..i], hash), ops[i])
  }

  /** No node is left over exactly when no insert of the run found its key in the table. */
  lemma {:induction false} NoneLeftOver(cfg: Config, ops: seq<Op>, hash: Hash)
    ensures Refused(cfg, ops, hash) == 0 <==> forall i :: 0 <= i < |ops| ==> !RefusedAt(cfg, ops, hash, i)
    decreases |ops|
  {
    hide Step, RefusedBy, After;
    if ops != [] {
      var k := |ops| - 1;
      NoneLeftOver(cfg, ops[..k], hash);
      forall i | 0 <= i < k ensures RefusedAt(cfg, ops[..k], hash, i) == RefusedAt(cfg, ops, hash, i) {
        assert ops[..k][..i] == ops[..i];
      }
      assert RefusedAt(cfg, ops, hash, k) <==> RefusedBy(cfg, After(cfg, ops[..k], hash), ops[k]);
      assert Refused(cfg, ops, hash) == 0 <==> Refused(cfg, ops[..k], hash) == 0 && !RefusedAt(cfg, ops, hash, k);
    }
  }

  /** What is left over stays: the count never goes down. */
  lemma {:induction false} LeftOverStays(cfg: Config, ops: seq<Op>, more: seq<Op>, hash: Hash)
    ensures Refused(cfg, ops, hash) <= Refused(cfg, ops + more, hash)
    decreases |more|
  {
    hide Step, RefusedBy, After;
    if more == [] {
      assert ops + more == ops;
    } else {
      var k := |more| - 1;
      LeftOverStays(cfg, ops, more[..k], hash);
      assert (ops + more)[..|ops| + k] == ops + more[..k];
    }
  }

  /** The same transfer twice and a timer past its age: the tables are empty, and one node is
      left in the list. */
  lemma {:induction false} NodeStaysBehind(cfg: Config, hash: Hash, t: Op, now: int)
    requires cfg.caching && t.Transfer? && Expired(cfg, now, t.mtime)
    ensures var ops := [t, t, Timer(now)];
            After(cfg, ops, hash) == EMPTY && Refused(cfg, ops, hash) == 1
  {
    hide KeyFor;
    EmptyIsComplete();
    var key := KeyFor(t.path, t.mtime, 0, t.len);
    var ops := [t, t, Timer(now)];
    assert ops[..2] == [t, t] && [t, t][..1] == [t] && [t][..0] == [];
    var one := EMPTY[t.algo := map[key := t.hex]];
    assert After(cfg, [], hash) == EMPTY && Refused(cfg, [], hash) == 0;
    assert After(cfg, [t], hash) == one && Refused(cfg, [t], hash) == 0;
    assert After(cfg, [t, t], hash) == one && Refused(cfg, [t, t], hash) == 1;
    OnlyEntryPruned(cfg, t, now);
  }

  lemma OnlyEntryPruned(cfg: Config, t: Op, now: int)
    requires t.Transfer? && Expired(cfg, now, t.mtime)
    ensures Complete(EMPTY)
    ensures var one := EMPTY[t.algo := map[KeyFor(t.path, t.mtime, 0, t.len) := t.hex]];
            Complete(one) && Pruned(cfg, one, now) == EMPTY
  {
    hide KeyFor;
    EmptyIsComplete();
    var key := KeyFor(t.path, t.mtime, 0, t.len);
    var one := EMPTY[t.algo := map[key := t.hex]];
    if Young(cfg, now, key) {
      var p, m, s, l :| key == KeyFor(p, m, s, l) && !Expired(cfg, now, m);
      KeysAreInjective(p, m, s, l, t.path, t.mtime, 0, t.len);
    }
    forall a: Algo ensures Pruned(cfg, one, now)[a] == map[] {
    }
  }

  // ----- Answers are digests of the file -----

  /** File contents, as a function of path and modification time. */
  type World = (string, Int64) -> seq<Byte>

  function Slice(content: seq<Byte>, start: int, len: nat): seq<Byte> {
    if 0 <= start && start + len <= |content| then content[start..start + len] else []
  }

  /** The digest computed directly from the file, in lower case. */
  function DirectDigest(world: World, hash: Hash, algo: Algo, path: string,
                        mtime: Int64, start: Int64, len: Size): string
  {
    Hex(DigestBytes(hash, algo, Slice(world(path, mtime), start, len)))
  }

  /** What a run may assume of its environment: the disk shows the world, and a finished
      transfer's running digest is the digest of the file it left behind. */
  ghost predicate Honest(op: Op, world: World, hash: Hash) {
    match op
    case Query(q, _) => q.file.Present? ==> q.file.content == world(q.path, q.file.mtime)
    case Timer(_) => true
    case Transfer(algo, path, mtime, len, hex) =>
      hex == DirectDigest(world, hash, algo, path, mtime, 0, len)
  }

  /** Every cached text is the digest computed directly from the file it is keyed by. */
  ghost predicate Sound(tabs: Tables, world: World, hash: Hash)
    requires Complete(tabs)
  {
    forall a: Algo, p, m, s, l :: KeyFor(p, m, s, l) in tabs[a] ==>
      tabs[a][KeyFor(p, m, s, l)] == DirectDigest(world, hash, a, p, m, s, l)
  }

  lemma SoundAfterInsert(tabs: Tables, world: World, hash: Hash,
                         algo: Algo, path: string, mtime: Int64, start: Int64, len: Size, hex: string)
    requires Complete(tabs) && Sound(tabs, world, hash)
    requires hex == DirectDigest(world, hash, algo, path, mtime, start, len)
    ensures Sound(Insert(tabs, algo, KeyFor(path, mtime, start, len), hex), world, hash)
  {
    hide KeyFor, DirectDigest;
    var key := KeyFor(path, mtime, start, len);
    var tabs' := Insert(tabs, algo, key, hex);
    forall a: Algo, p, m, s, l | KeyFor(p, m, s, l) in tabs'[a]
      ensures tabs'[a][KeyFor(p, m, s, l)] == DirectDigest(world, hash, a, p, m, s, l)
    {
      if a == algo && KeyFor(p, m, s, l) == key {
        KeysAreInjective(p, m, s, l, path, mtime, start, len);
      }
    }
  }

  lemma SoundAfterStep(cfg: Config, tabs: Tables, op: Op, world: World, hash: Hash)
    requires Complete(tabs) && Sound(tabs, world, hash) && Honest(op, world, hash)
    ensures Sound(Step(cfg, tabs, op, hash), world, hash)
  {
    hide KeyFor, DirectDigest, Total, Insert;
    match op
    case Query(q, _) =>
      if CanDigest(q.file, q.start, q.len) {
        ComputedIsDirect(q, world, hash);
        SoundAfterInsert(AfterLookup(cfg, tabs, q), world, hash,
          q.algo, q.path, q.file.mtime, q.start, q.len, Computed(hash, q));
      }
    case Timer(_) =>
    case Transfer(algo, path, mtime, len, hex) =>
      SoundAfterInsert(tabs, world, hash, algo, path, mtime, 0, len, hex);
  }

  lemma ComputedIsDirect(q: Request, world: World, hash: Hash)
    requires CanDigest(q.file, q.start, q.len) && q.file.content == world(q.path, q.file.mtime)
    ensures Computed(hash, q) == DirectDigest(world, hash, q.algo, q.path, q.file.mtime, q.start, q.len)
  {
  }

  lemma {:induction false} RunsAreSound(cfg: Config, ops: seq<Op>, world: World, hash: Hash)
    requires forall i :: 0 <= i < |ops| ==> Honest(ops[i], world, hash)
    ensures Sound(After(cfg, ops, hash), world, hash)
    decreases |ops|
  {
    hide KeyFor, DirectDigest, Step;
    if ops == [] {
      EmptyIsComplete();
    } else {
      var k := |ops| - 1;
      RunsAreSound(cfg, ops[..k], world, hash);
      SoundAfterStep(cfg, After(cfg, ops[..k], hash), ops[k], world, hash);
    }
  }

  /** In any run, every request that is answered is answered with the digest computed directly
      from the file: from the version asked about on a hit, and otherwise from the version on
      disk. It goes unanswered exactly when the cache is full after the lookup, or on a miss
      whose range cannot be digested. */
  lemma {:induction false} AnswersAreDirectDigests(cfg: Config, ops: seq<Op>, world: World, hash: Hash, i: nat)
    requires forall j :: 0 <= j < |ops| ==> Honest(ops[j], world, hash)
    requires i < |ops| && ops[i].Query?
    ensures var q, tabs := ops[i].q, After(cfg, ops[..i], hash);
            && (AnswerAt(cfg, ops, hash, i).None? <==>
                  Busy(cfg, tabs, q) || (!Hit(cfg, tabs, q) && !CanDigest(q.file, q.start, q.len)))
            && (AnswerAt(cfg, ops, hash, i).Some? ==>
                  AnswerAt(cfg, ops, hash, i).value == Cased(q.upper, DirectDigest(world, hash, q.algo, q.path,
                    if Hit(cfg, tabs, q) then q.mtime else q.file.mtime, q.start, q.len)))
  {
    hide KeyFor, DirectDigest, Busy, After;
    var q := ops[i].q;
    RunsAreSound(cfg, ops[..i], world, hash);
    assert Honest(ops[i], world, hash);
    if CanDigest(q.file, q.start, q.len) {
      ComputedIsDirect(q, world, hash);
    }
  }

  /** The text of some bytes as a request wants it: two hexadecimal digits for each, with the
      letters in the case asked for. */
  ghost predicate IsTextOf(text: string, upper: bool, bytes: seq<Byte>) {
    && |text| == |Hex(bytes)|
    && forall i :: 0 <= i < |text| ==>
         && text[i] as int == Hex(bytes)[i] as int - (if upper && 'a' <= Hex(bytes)[i] <= 'z' then 32 else 0)
         && ('0' <= text[i] <= '9' || if upper then 'A' <= text[i] <= 'F' else 'a' <= text[i] <= 'f')
  }

  /** In any run, an answer is the text, in the case asked for, of what the requested algorithm
      makes of the requested range: the CRC for CRC32, and for every other algorithm the
      library's digest of that name. */
  lemma {:induction false} AnswersInFull(cfg: Config, ops: seq<Op>, world: World, hash: Hash, i: nat)
    requires forall j :: 0 <= j < |ops| ==> Honest(ops[j], world, hash)
    requires i < |ops| && ops[i].Query? && AnswerAt(cfg, ops, hash, i).Some?
    ensures var q, answer := ops[i].q, AnswerAt(cfg, ops, hash, i).value;
            var hit := Hit(cfg, After(cfg, ops[..i], hash), q);
            && (hit || q.file.Present?)
            && var content := world(q.path, if hit then q.mtime else q.file.mtime);
               0 <= q.start && q.start + q.len <= |content| ==>
                 var range := content[q.start..q.start + q.len];
                 match q.algo
                 case CRC32 => IsTextOf(answer, q.upper, Crc32.Crc(range))
                 case MD5 => IsTextOf(answer, q.upper, hash(MD5, range))
                 case SHA1 => IsTextOf(answer, q.upper, hash(SHA1, range))
                 case SHA256 => IsTextOf(answer, q.upper, hash(SHA256, range))
                 case SHA512 => IsTextOf(answer, q.upper, hash(SHA512, range))
  {
    hide KeyFor, Busy, After, Hex, Crc32.Crc;
    AnswersAreDirectDigests(cfg, ops, world, hash, i);
    var q := ops[i].q;
    var m := if Hit(cfg, After(cfg, ops[..i], hash), q) then q.mtime else q.file.mtime;
    var bytes := DigestBytes(hash, q.algo, Slice(world(q.path, m), q.start, q.len));
    CasedIsText(q.upper, bytes);
  }

  lemma CasedIsText(upper: bool, bytes: seq<Byte>)
    ensures IsTextOf(Cased(upper, Hex(bytes)), upper, bytes)
  {
    var text := Hex(bytes);
    forall i | 0 <= i < |text| ensures '0' <= text[i] <= '9' || 'a' <= text[i] <= 'f' {
    }
  }

  // ----- How much is held -----

  function Transfers(ops: seq<Op>): nat
    decreases |ops|
  {
    if ops == [] then 0
    else Transfers(ops[..|ops| - 1]) + if ops[|ops| - 1].Transfer? then 1 else 0
  }

  lemma {:induction false} SubsetIsNotLarger(s: set<string>, t: set<string>)
    requires s <= t
    ensures |s| <= |t|
  {
    if s != {} {
      var x :| x in s;
      SubsetIsNotLarger(s - {x}, t - {x});
    }
  }

  lemma PrunedIsNotLarger(cfg: Config, tabs: Tables, now: int)
    requires Complete(tabs)
    ensures Total(Pruned(cfg, tabs, now)) <= Total(tabs)
  {
    hide Young;
    forall a: Algo ensures |Pruned(cfg, tabs, now)[a]| <= |tabs[a]| {
      SubsetIsNotLarger(Pruned(cfg, tabs, now)[a].Keys, tabs[a].Keys);
    }
  }

  lemma InsertAddsOne(tabs: Tables, algo: Algo, key: string, hex: string)
    requires Complete(tabs)
    ensures Total(Insert(tabs, algo, key, hex)) == Total(tabs) + if key in tabs[algo] then 0 else 1
  {
    hide Total;
    if key !in tabs[algo] {
      TotalAfterAdd(tabs, algo, key, hex);
    }
  }

  lemma StepKeepsLimit(cfg: Config, tabs: Tables, op: Op, hash: Hash, more: nat)
    requires Complete(tabs) && Total(tabs) <= cfg.maxSize + more
    ensures Total(Step(cfg, tabs, op, hash)) <= cfg.maxSize + more + if op.Transfer? then 1 else 0
  {
    hide KeyFor, Total, Insert, Pruned, Computed, Expired;
    match op
    case Query(q, _) =>
      if Held(cfg, tabs, q) {
        TotalAfterRemove(tabs, q.algo, RequestKey(q));
      }
      if CanDigest(q.file, q.start, q.len) {
        InsertAddsOne(AfterLookup(cfg, tabs, q), q.algo, DiskKey(q), Computed(hash, q));
      }
    case Timer(now) => PrunedIsNotLarger(cfg, tabs, now);
    case Transfer(algo, path, mtime, len, hex) => InsertAddsOne(tabs, algo, KeyFor(path, mtime, 0, len), hex);
  }

  /** The five tables together exceed the configured size by at most one entry for each
      finished transfer, and so not at all without transfers. */
  lemma {:induction false} SizeIsBounded(cfg: Config, ops: seq<Op>, hash: Hash)
    ensures Total(After(cfg, ops, hash)) <= cfg.maxSize + Transfers(ops)
    decreases |ops|
  {
    hide Step, Total;
    if ops == [] {
      EmptyIsComplete();
    } else {
      var k := |ops| - 1;
      SizeIsBounded(cfg, ops[..k], hash);
      StepKeepsLimit(cfg, After(cfg, ops[..k], hash), ops[k], hash, Transfers(ops[..k]));
    }
  }

  // ----- The cache caches -----

  /** A digest that was computed is answered again from the cache, whatever has become of the
      file, as long as the version asked about is the one that was cached, it is not past its
      age, and the cache is not full. */
  lemma {:induction false} AnsweredFromCache(cfg: Config, tabs: Tables, q: Request, q': Request, hash: Hash)
    requires Complete(tabs) && cfg.caching
    requires Answer(cfg, tabs, q, hash).Some? && !Hit(cfg, tabs, q)
    requires !Refuses(cfg, tabs, q)
    requires q'.algo == q.algo && q'.path == q.path && q'.start == q.start && q'.len == q.len
    requires q'.mtime == q.file.mtime && q'.upper == q.upper
    ensures var tabs' := AfterRequest(cfg, tabs, q, hash);
            && Total(tabs') == Total(AfterLookup(cfg, tabs, q)) + 1
            && (Answer(cfg, tabs', q', hash) == Answer(cfg, tabs, q, hash) && Hit(cfg, tabs', q')
                <==> !Expired(cfg, q'.now, q'.mtime) && Total(tabs') < cfg.maxSize)
  {
    hide KeyFor, Total, Computed;
    InsertAddsOne(AfterLookup(cfg, tabs, q), q.algo, DiskKey(q), Computed(hash, q));
  }

  /** A full cache refuses even what it holds: with a maximum of one, the same request twice is
      answered once. */
  lemma {:induction false} FullCacheRefusesHits(cfg: Config, q: Request, hash: Hash, schedule: seq<ReadOutcome>)
    requires cfg.caching && cfg.maxSize == 1
    requires CanDigest(q.file, q.start, q.len) && q.file.mtime == q.mtime && !Expired(cfg, q.now, q.mtime)
    ensures var ops := [Query(q, schedule), Query(q, schedule)];
            && AnswerAt(cfg, ops, hash, 0) == Some(Cased(q.upper, Computed(hash, q)))
            && Hit(cfg, After(cfg, ops[..1], hash), q)
            && AnswerAt(cfg, ops, hash, 1) == None
  {
    hide KeyFor, Computed, Total;
    EmptyIsComplete();
    var op := Query(q, schedule);
    assert [op, op][..1] == [op] && [op, op][..0] == [] && [op][..0] == [];
    InsertAddsOne(EMPTY, q.algo, DiskKey(q), Computed(hash, q));
  }

  // ----- What is held -----

  /** The operation puts the key into the table, unless it is there. */
  ghost predicate Puts(cfg: Config, tabs: Tables, op: Op, a: Algo, key: string)
    requires Complete(tabs)
  {
    match op
    case Query(q, _) => q.algo == a && Inserts(cfg, tabs, q) && DiskKey(q) == key
    case Timer(_) => false
    case Transfer(algo, path, mtime, len, _) => cfg.caching && algo == a && KeyFor(path, mtime, 0, len) == key
  }

  /** The operation takes the key out: a lookup finds it past its age, or the timer does. */
  ghost predicate Takes(cfg: Config, op: Op, a: Algo, key: string) {
    match op
    case Query(q, _) => cfg.caching && q.algo == a && RequestKey(q) == key && Expired(cfg, q.now, q.mtime)
    case Timer(now) => !Young(cfg, now, key)
    case Transfer(_, _, _, _, _) => false
  }

  lemma StepHolds(cfg: Config, tabs: Tables, op: Op, hash: Hash, a: Algo, key: string)
    requires Complete(tabs)
    ensures key in Step(cfg, tabs, op, hash)[a] <==>
      Puts(cfg, tabs, op, a, key) || (key in tabs[a] && !Takes(cfg, op, a, key))
  {
    hide KeyFor, Total, Computed, Young, Busy;
  }

  /** The i-th operation puts the key in, and no later one takes it out. */
  ghost predicate PutAt(cfg: Config, ops: seq<Op>, hash: Hash, a: Algo, key: string, i: nat) {
    && i < |ops| && Puts(cfg, After(cfg, ops[..i], hash), ops[i], a, key)
    && forall j :: i < j < |ops| ==> !Takes(cfg, ops[j], a, key)
  }

  /** In every run, a key is held exactly when some operation put it in and no later one took it
      out: a request for it is then a hit unless it is past its age. */
  lemma {:induction false} HeldExactly(cfg: Config, ops: seq<Op>, hash: Hash, a: Algo, key: string)
    ensures key in After(cfg, ops, hash)[a] <==> exists i :: PutAt(cfg, ops, hash, a, key, i)
    decreases |ops|
  {
    hide Step, Puts, Takes;
    if ops == [] {
      EmptyIsComplete();
    } else {
      var k := |ops| - 1;
      var before := ops[..k];
      HeldExactly(cfg, before, hash, a, key);
      StepHolds(cfg, After(cfg, before, hash), ops[k], hash, a, key);
      assert forall i :: 0 <= i <= k ==> before[..i] == ops[..i];
      if Puts(cfg, After(cfg, before, hash), ops[k], a, key) {
        assert PutAt(cfg, ops, hash, a, key, k);
      }
      if i: nat :| PutAt(cfg, before, hash, a, key, i) && !Takes(cfg, ops[k], a, key) {
        assert PutAt(cfg, ops, hash, a, key, i);
      }
      if i: nat :| PutAt(cfg, ops, hash, a, key, i) && i < k {
        assert PutAt(cfg, before, hash, a, key, i);
        assert !Takes(cfg, ops[k], a, key);
      }
    }
  }

  // ----- What the directives set -----

  const DEFAULT: Config := Config(true, 10000, 30)

  /** A DigestCache directive: on or off, or limits as strtol and the duration parser read them. */
  datatype Directive = Switch(on: bool) | Limits(size: Int64, maxAge: nat)

  /** set_digestcache refuses a size or an age below one. */
  predicate Accepted(d: Directive) {
    d.Limits? ==> d.size >= 1 && d.maxAge >= 1
  }

  /** What a directive does to the settings in force: off leaves the limits as they were, and a
      size is cut to an unsigned int. */
  function Applied(cfg: Config, d: Option<Directive>): Config
    requires d.Some? ==> Accepted(d.value)
  {
    match d
    case None => cfg
    case Some(Switch(on)) => if on then DEFAULT else cfg.(caching := false)
    case Some(Limits(size, maxAge)) => Config(true, size % 0x1_0000_0000, maxAge)
  }

  /** Which directives are accepted and what they set, in numbers. */
  lemma DirectivesInNumbers(cfg: Config, size: Int64, maxAge: nat)
    ensures Accepted(Limits(size, maxAge)) <==> size >= 1 && maxAge >= 1
    ensures Applied(cfg, Some(Switch(true))) == Config(true, 10000, 30)
    ensures Applied(cfg, Some(Switch(false))) == Config(false, cfg.maxSize, cfg.maxAge)
    ensures Accepted(Limits(size, maxAge)) ==>
      Applied(cfg, Some(Limits(size, maxAge))) == Config(true, size % 0x1_0000_0000, maxAge)
    ensures SessionSettings(None, None) == Config(true, 10000, 30)
  {
  }

  /** The settings of a session: the server's directive, then the one of the login's context. */
  function SessionSettings(server: Option<Directive>, login: Option<Directive>): Config
    requires (server.Some? ==> Accepted(server.value)) && (login.Some? ==> Accepted(login.value))
  {
    Applied(Applied(DEFAULT, server), login)
  }

  predicate IsCutToZero(d: Option<Directive>) {
    d.Some? && d.value.Limits? && d.value.size % 0x1_0000_0000 == 0
  }

  predicate LeavesLimits(d: Option<Directive>) {
    d.None? || d.value == Switch(false)
  }

  /** The size check is never met while caching is off, as its comment says, exactly when the
      size limit in force is not zero; and exactly which accepted directives make it zero. Then
      nothing is answered, with caching on or off. */
  lemma {:induction false} ZeroLimitRefusesAll(server: Option<Directive>, login: Option<Directive>,
                                               tabs: Tables, q: Request, hash: Hash)
    requires (server.Some? ==> Accepted(server.value)) && (login.Some? ==> Accepted(login.value))
    requires Complete(tabs)
    ensures var cfg := SessionSettings(server, login);
            && (cfg.maxSize == 0 <==> IsCutToZero(login) || (IsCutToZero(server) && LeavesLimits(login)))
            && (!cfg.caching ==> (Busy(cfg, tabs, q) <==> cfg.maxSize == 0))
            && (cfg.maxSize == 0 ==> Answer(cfg, tabs, q, hash) == None)
  {
    hide KeyFor, Computed, Total;
  }

  /** Such settings: a size of 2^32 for the server, and off for the login. */
  lemma {:induction false} OffAndZero()
    ensures SessionSettings(Some(Limits(0x1_0000_0000, 30)), Some(Switch(false))) == Config(false, 0, 30)
  {
  }
}
