/** The digest cache of contrib/mod_digest.c: five tables keyed by strings, and one list of
    key nodes ordered by modification time that drives expiry.
*/
module DigestCache {
  import opened Basics
  import opened CacheKey
  import opened DigestFile

  // ----- Hexadecimal text -----

  function HexDigit(n: nat): (c: char)
    requires n < 16
    ensures '0' <= c <= '9' || 'a' <= c <= 'f'
  {
    if n < 10 then '0' + n as char else 'a' + (n - 10) as char
  }

  /** pr_str_bin2hex with lower-case digits. */
  function Hex(bytes: seq<Byte>): (s: string)
    ensures |s| == 2 * |bytes|
    ensures forall i :: 0 <= i < |s| ==> '0' <= s[i] <= '9' || 'a' <= s[i] <= 'f'
  {
    if bytes == [] then "" else [HexDigit(bytes[0] / 16), HexDigit(bytes[0] % 16)] + Hex(bytes[1..])
  }

  function Upper(c: char): char {
    if 'a' <= c <= 'z' then 'A' + (c - 'a') else c
  }

  function Uppercase(s: string): (r: string)
    ensures |r| == |s|
  {
    seq(|s|, i requires 0 <= i < |s| => Upper(s[i]))
  }

  function HexValue(c: char): nat {
    if '0' <= c <= '9' then (c - '0') as nat
    else if 'a' <= c <= 'f' then 10 + (c - 'a') as nat
    else if 'A' <= c <= 'F' then 10 + (c - 'A') as nat
    else 0
  }

  /** Reads hexadecimal text of either case back into bytes. */
  function Unhex(s: string): seq<nat> {
    if |s| < 2 then [] else [16 * HexValue(s[0]) + HexValue(s[1])] + Unhex(s[2..])
  }

  /** Digest text determines the digest bytes, and upper-casing does not change what it says. */
  lemma {:induction false} HexRoundTrip(bytes: seq<Byte>)
    ensures Unhex(Hex(bytes)) == bytes
    ensures Unhex(Uppercase(Hex(bytes))) == bytes
  {
    if bytes != [] {
      var s := Hex(bytes);
      HexRoundTrip(bytes[1..]);
      assert s[2..] == Hex(bytes[1..]);
      assert Uppercase(s)[2..] == Uppercase(Hex(bytes[1..]));
      HexDigitValue(bytes[0] / 16);
      HexDigitValue(bytes[0] % 16);
    }
  }

  lemma HexDigitIs(n: nat)
    requires n < 16
    ensures HexDigit(n) == "0123456789abcdef"[n]
  {
  }

  /** Two digits for each byte, the high one first. */
  lemma {:induction false} HexOfBytes(a: seq<Byte>, b: Byte)
    ensures Hex(a + [b]) == Hex(a) + ["0123456789abcdef"[b / 16], "0123456789abcdef"[b % 16]]
  {
    HexDigitIs(b / 16);
    HexDigitIs(b % 16);
    if a == [] {
      assert [] + [b] == [b] && [b][1..] == [];
    } else {
      assert (a + [b])[1..] == a[1..] + [b];
      HexOfBytes(a[1..], b);
    }
  }

  lemma HexDigitValue(n: nat)
    requires n < 16
    ensures HexValue(HexDigit(n)) == n && HexValue(Upper(HexDigit(n))) == n
  {
  }

  /** The upper-casing loop: letters move to the other case, nothing else changes. */
  method ToUpper(s: string) returns (r: string)
    ensures r == Uppercase(s)
    ensures |r| == |s|
    ensures forall i :: 0 <= i < |s| ==>
      r[i] as int == if 'a' <= s[i] <= 'z' then s[i] as int - 32 else s[i] as int
  {
    r := "";
    for i := 0 to |s|
      invariant |r| == i
      invariant forall k :: 0 <= k < i ==> r[k] == Upper(s[k])
    {
      r := r + [Upper(s[i])];
    }
  }

  // ----- The key list -----

  datatype Node = Node(algo: Algo, path: string, mtime: Int64, start: Int64, len: Size,
                       key: string, hex: string)

  ghost predicate WellKeyed(n: Node) {
    n.key == KeyFor(n.path, n.mtime, n.start, n.len)
  }

  ghost predicate Sorted(keys: seq<Node>) {
    forall i, j :: 0 <= i < j < |keys| ==> keys[i].mtime <= keys[j].mtime
  }

  type Tables = map<Algo, map<string, string>>

  const EMPTY: Tables := map[CRC32 := map[], MD5 := map[], SHA1 := map[], SHA256 := map[], SHA512 := map[]]

  lemma EmptyIsComplete()
    ensures Complete(EMPTY) && Total(EMPTY) == 0 && forall a: Algo :: EMPTY[a] == map[]
  {
    forall a: Algo ensures a in EMPTY && EMPTY[a] == map[] {
      match a case CRC32 => case MD5 => case SHA1 => case SHA256 => case SHA512 =>
    }
  }

  /** There is a table for every algorithm. */
  ghost predicate Complete(tabs: Tables) {
    forall a: Algo :: a in tabs
  }

  ghost predicate Backed(keys: seq<Node>, algo: Algo, key: string) {
    exists n :: n in keys && n.algo == algo && n.key == key
  }

  function Total(tabs: Tables): nat
    requires Complete(tabs)
  {
    |tabs[CRC32]| + |tabs[MD5]| + |tabs[SHA1]| + |tabs[SHA256]| + |tabs[SHA512]|
  }

  function Matches(n: Node, algo: Algo, path: string, mtime: Int64, start: Int64, len: Size): bool {
    n.algo == algo && n.mtime == mtime && n.start == start && n.len == len && n.path == path
  }

  /** Every table entry is backed by a node, the nodes are in mtime order, and there is
      one node for each table entry plus one for each refused insert. */
  ghost predicate Consistent(tabs: Tables, keys: seq<Node>, refused: nat)
    requires Complete(tabs)
  {
    && Sorted(keys)
    && (forall n :: n in keys ==> WellKeyed(n))
    && (forall a: Algo, s :: s in tabs[a] ==> Backed(keys, a, s))
    && |keys| == Total(tabs) + refused
  }

  // ----- What each operation does to the tables -----

  /** DigestCache, and the size and age limits it is configured with. */
  datatype Config = Config(caching: bool, maxSize: nat, maxAge: nat)

  predicate Expired(cfg: Config, now: int, mtime: Int64) {
    now > mtime + cfg.maxAge
  }

  /** A table takes a key it does not have, and keeps the value of one it has. */
  function Insert(tabs: Tables, algo: Algo, key: string, hex: string): (r: Tables)
    requires Complete(tabs)
    ensures Complete(r)
  {
    if key in tabs[algo] then tabs else tabs[algo := tabs[algo][key := hex]]
  }

  function Remove(tabs: Tables, algo: Algo, key: string): (r: Tables)
    requires Complete(tabs)
    ensures Complete(r)
  {
    tabs[algo := tabs[algo] - {key}]
  }

  /** A request for the digest of a range of a file, as of a modification time, and what the
      disk shows when it is served. */
  datatype Request = Request(algo: Algo, path: string, mtime: Int64, start: Int64, len: Size,
                             upper: bool, now: int, file: FileState)

  function RequestKey(q: Request): string {
    KeyFor(q.path, q.mtime, q.start, q.len)
  }

  /** The lookup finds the key, whatever its age. */
  predicate Held(cfg: Config, tabs: Tables, q: Request)
    requires Complete(tabs)
  {
    cfg.caching && RequestKey(q) in tabs[q.algo]
  }

  predicate Hit(cfg: Config, tabs: Tables, q: Request)
    requires Complete(tabs)
  {
    Held(cfg, tabs, q) && !Expired(cfg, q.now, q.mtime)
  }

  /** The lookup evicts an entry past its age. */
  function AfterLookup(cfg: Config, tabs: Tables, q: Request): (r: Tables)
    requires Complete(tabs)
    ensures Complete(r)
  {
    if Held(cfg, tabs, q) && Expired(cfg, q.now, q.mtime) then Remove(tabs, q.algo, RequestKey(q)) else tabs
  }

  /** check_cache_size after the lookup. */
  predicate Busy(cfg: Config, tabs: Tables, q: Request)
    requires Complete(tabs)
  {
    (if cfg.caching then Total(AfterLookup(cfg, tabs, q)) else 0) >= cfg.maxSize
  }

  /** The digest text of the requested range of the file on disk. */
  function Computed(hash: Hash, q: Request): string
    requires CanDigest(q.file, q.start, q.len)
  {
    Hex(DigestBytes(hash, q.algo, q.file.content[q.start..q.start + q.len]))
  }

  /** A request tries to insert: on a miss that could be digested, with caching on and room. */
  predicate Inserts(cfg: Config, tabs: Tables, q: Request)
    requires Complete(tabs)
  {
    cfg.caching && !Busy(cfg, tabs, q) && !Hit(cfg, tabs, q) && CanDigest(q.file, q.start, q.len)
  }

  /** The key a request inserts under. */
  function DiskKey(q: Request): string
    requires q.file.Present?
  {
    KeyFor(q.path, q.file.mtime, q.start, q.len)
  }

  /** The insert of a request finds its key in the table. */
  predicate Refuses(cfg: Config, tabs: Tables, q: Request)
    requires Complete(tabs)
  {
    Inserts(cfg, tabs, q) && DiskKey(q) in AfterLookup(cfg, tabs, q)[q.algo]
  }

  /** The tables after a request: the eviction, and on a miss that could be digested the new
      entry, under the modification time the file has on disk. */
  function AfterRequest(cfg: Config, tabs: Tables, q: Request, hash: Hash): (r: Tables)
    requires Complete(tabs)
    ensures Complete(r)
  {
    var t := AfterLookup(cfg, tabs, q);
    if Inserts(cfg, tabs, q) then Insert(t, q.algo, DiskKey(q), Computed(hash, q)) else t
  }

  /** The answer to a request: none when the cache is full, even on a hit; the cached text on
      a hit; otherwise the computed text if the range can be digested. */
  function Answer(cfg: Config, tabs: Tables, q: Request, hash: Hash): Option<string>
    requires Complete(tabs)
  {
    if Busy(cfg, tabs, q) then None
    else if Hit(cfg, tabs, q) then Some(Cased(q.upper, tabs[q.algo][RequestKey(q)]))
    else if CanDigest(q.file, q.start, q.len) then Some(Cased(q.upper, Computed(hash, q)))
    else None
  }

  /** A key of a version that is not past its age. */
  ghost predicate Young(cfg: Config, now: int, key: string) {
    exists p, m, s, l :: key == KeyFor(p, m, s, l) && !Expired(cfg, now, m)
  }

  /** The tables with exactly the entries that are not past their age. */
  ghost function Pruned(cfg: Config, tabs: Tables, now: int): (r: Tables)
    requires Complete(tabs)
    ensures Complete(r)
  {
    map a: Algo | a in tabs :: map key | key in tabs[a] && Young(cfg, now, key) :: tabs[a][key]
  }

  class Cache {
    const cfg: Config
    var tabs: Tables
    var keys: seq<Node>
    /** How many inserts found their key already in its table. */
    ghost var refused: nat

    ghost predicate Valid()
      reads this
    {
      && Complete(tabs)
      && Consistent(tabs, keys, refused)
    }

    constructor (cfg: Config)
      ensures Valid() && this.cfg == cfg
      ensures tabs == EMPTY && keys == [] && refused == 0
    {
      this.cfg := cfg;
      tabs, keys, refused := EMPTY, [], 0;
      new;
      EmptyIsComplete();
    }

    /** create_cache_key: insert before the first node that is not older. */
    method CreateKey(n: Node) returns (pos: nat)
      requires Sorted(keys)
      modifies this`keys
      ensures pos <= |old(keys)|
      ensures keys == old(keys)[..pos] + [n] + old(keys)[pos..]
      ensures Sorted(keys) && |keys| == |old(keys)| + 1
      ensures forall m :: m in keys <==> m == n || m in old(keys)
    {
      pos := 0;
      while pos < |keys| && n.mtime > keys[pos].mtime
        invariant 0 <= pos <= |keys|
        invariant forall i :: 0 <= i < pos ==> keys[i].mtime < n.mtime
      {
        pos := pos + 1;
      }
      keys := keys[..pos] + [n] + keys[pos..];
    }

    /** find_cache_key: the first node with the given fields. */
    method FindKey(algo: Algo, path: string, mtime: Int64, start: Int64, len: Size) returns (i: nat)
      ensures i <= |keys|
      ensures i < |keys| ==> Matches(keys[i], algo, path, mtime, start, len)
      ensures forall j :: 0 <= j < i ==> !Matches(keys[j], algo, path, mtime, start, len)
    {
      i := 0;
      while i < |keys| && !Matches(keys[i], algo, path, mtime, start, len)
        invariant 0 <= i <= |keys|
        invariant forall j :: 0 <= j < i ==> !Matches(keys[j], algo, path, mtime, start, len)
      {
        i := i + 1;
      }
    }

    /** remove_cached_digest: drops the table entry and exactly one node of its key. */
    method RemoveCached(algo: Algo, path: string, mtime: Int64, start: Int64, len: Size)
      returns (ok: bool)
      requires Valid()
      modifies this`tabs, this`keys
      ensures Valid()
      ensures ok == (KeyFor(path, mtime, start, len) in old(tabs)[algo])
      ensures !ok ==> tabs == old(tabs) && keys == old(keys)
      ensures tabs == Remove(old(tabs), algo, KeyFor(path, mtime, start, len))
      ensures Total(tabs) == Total(old(tabs)) - if ok then 1 else 0
      ensures ok ==> exists i ::
        0 <= i < |old(keys)|
        && Matches(old(keys)[i], algo, path, mtime, start, len)
        && keys == old(keys)[..i] + old(keys)[i + 1..]
    {
      hide KeyFor, Total, Consistent;
      var key := KeyFor(path, mtime, start, len);
      ok := key in tabs[algo];
      if !ok {
        assert tabs[algo] - {key} == tabs[algo];
        assert tabs == tabs[algo := tabs[algo]];
        return;
      }
      ConsistentAfterRemove(tabs, keys, refused, algo, path, mtime, start, len);
      tabs := tabs[algo := tabs[algo] - {key}];
      var i := FindKey(algo, path, mtime, start, len);
      keys := keys[..i] + keys[i + 1..];
    }

    /** add_cached_digest: a new node always joins the list, but the table keeps the value
        it already has for that key. */
    method AddCached(algo: Algo, path: string, mtime: Int64, start: Int64, len: Size, hex: string)
      returns (ok: bool)
      requires Valid()
      modifies this
      ensures Valid()
      ensures !cfg.caching ==> ok && tabs == old(tabs) && keys == old(keys)
      ensures cfg.caching ==>
        && ok == (KeyFor(path, mtime, start, len) !in old(tabs)[algo])
        && tabs == Insert(old(tabs), algo, KeyFor(path, mtime, start, len), hex)
      ensures refused == old(refused) + if ok then 0 else 1
      ensures var n := Node(algo, path, mtime, start, len, KeyFor(path, mtime, start, len), hex);
              cfg.caching ==> exists pos | 0 <= pos <= |old(keys)| :: keys == old(keys)[..pos] + [n] + old(keys)[pos..]
    {
      hide KeyFor, Total, Consistent;
      if !cfg.caching {
        return true;
      }
      var key := KeyFor(path, mtime, start, len);
      var n := Node(algo, path, mtime, start, len, key, hex);
      SortedWhenConsistent(tabs, keys, refused);
      var pos := CreateKey(n);
      ConsistentAfterAdd(tabs, old(keys), keys, n, refused);
      ok := key !in tabs[algo];
      if ok {
        tabs := tabs[algo := tabs[algo][key := hex]];
      } else {
        refused := refused + 1;
      }
    }

    /** get_cached_digest: an entry past its age is evicted and not returned. */
    method GetCached(q: Request) returns (hex: Option<string>)
      requires Valid()
      modifies this`tabs, this`keys
      ensures Valid()
      ensures tabs == AfterLookup(cfg, old(tabs), q)
      ensures hex == if Hit(cfg, old(tabs), q) then Some(old(tabs)[q.algo][RequestKey(q)]) else None
      ensures var key := KeyFor(q.path, q.mtime, q.start, q.len);
              var held := cfg.caching && key in old(tabs)[q.algo];
              && (hex.Some? <==> held && q.now <= q.mtime + cfg.maxAge)
              && (held && q.now > q.mtime + cfg.maxAge ==> key !in tabs[q.algo])
              && forall a: Algo, k :: (a != q.algo || k != key) ==>
                   (k in tabs[a] <==> k in old(tabs)[a]) && (k in tabs[a] ==> tabs[a][k] == old(tabs)[a][k])
    {
      hide KeyFor, Total;
      if !cfg.caching {
        return None;
      }
      var key := RequestKey(q);
      if key in tabs[q.algo] {
        if Expired(cfg, q.now, q.mtime) {
          var _ := RemoveCached(q.algo, q.path, q.mtime, q.start, q.len);
          return None;
        }
        return Some(tabs[q.algo][key]);
      }
      return None;
    }

    /** The loop of digest_cache_expiry_cb: the walk over the ordered list stops at the first node that is
        young enough, and yet no expired entry is left in any table, and no other is lost. */
    method ExpiryWalk(now: int)
      requires Valid()
      modifies this`tabs, this`keys
      ensures Valid()
      ensures tabs == Pruned(cfg, old(tabs), now)
    {
      hide KeyFor, Total, Consistent, Pruned;
      var i := 0;
      while i < |keys| && Expired(cfg, now, keys[i].mtime)
        invariant 0 <= i <= |keys|
        invariant Valid()
        invariant SubTables(tabs, old(tabs))
        invariant forall j :: 0 <= j < i ==> keys[j].key !in tabs[keys[j].algo]
        invariant forall a: Algo, p, m, s, l ::
          KeyFor(p, m, s, l) in old(tabs)[a] && !Expired(cfg, now, m) ==> KeyFor(p, m, s, l) in tabs[a]
        decreases |keys| - i
      {
        label before:
        var n := keys[i];
        NodesAreWellKeyed(tabs, keys, refused);
        var ok := RemoveCached(n.algo, n.path, n.mtime, n.start, n.len);
        forall a: Algo, p, m, s, l | KeyFor(p, m, s, l) in old@before(tabs)[a] && !Expired(cfg, now, m)
          ensures KeyFor(p, m, s, l) in tabs[a]
        {
          if KeyFor(p, m, s, l) == n.key {
            KeysAreInjective(p, m, s, l, n.path, n.mtime, n.start, n.len);
          }
        }
        if ok {
          // the list is one node shorter, so the successor of n is now at i
          VisitedAfterRemove(old@before(tabs), old@before(keys), tabs, keys, i, n);
        } else {
          i := i + 1;
        }
      }
      forall a: Algo, key | key in tabs[a] ensures Young(cfg, now, key) {
        BackingNodeIsYoung(this, i, now, a, key);
      }
      IsPruned(cfg, old(tabs), tabs, now);
    }

    /** digest_cache_expiry_cb: exactly the entries within their age are left, as they were. */
    method Expire(now: int)
      requires Valid()
      modifies this`tabs, this`keys
      ensures Valid()
      ensures tabs == Pruned(cfg, old(tabs), now)
      ensures forall a: Algo, p, m: Int64, s: Int64, l: Size ::
        KeyFor(p, m, s, l) in tabs[a] <==> KeyFor(p, m, s, l) in old(tabs)[a] && now <= m + cfg.maxAge
      ensures forall a: Algo, k :: k in tabs[a] ==> k in old(tabs)[a] && tabs[a][k] == old(tabs)[a][k]
    {
      hide Consistent, KeyFor, Total;
      ExpiryWalk(now);
      PrunedByAge(cfg, old(tabs), now);
    }

    /** check_cache_size and get_digest: the answer and the tables of the specification,
        however the file's bytes arrive. A refused insert leaves one node more in the list. */
    method GetDigest(q: Request, hash: Hash, schedule: seq<ReadOutcome>) returns (answer: Option<string>)
      requires Valid()
      requires q.file.Present? ==> q.file.blksize > 0
      modifies this
      ensures Valid()
      ensures answer == Answer(cfg, old(tabs), q, hash)
      ensures tabs == AfterRequest(cfg, old(tabs), q, hash)
      ensures refused == old(refused) + if Refuses(cfg, old(tabs), q) then 1 else 0
    {
      hide KeyFor, Total, Consistent, DigestBytes, Hex, Remove;
      var hex := GetCached(q);
      var size := if cfg.caching then Total(tabs) else 0;
      if size >= cfg.maxSize {
        return None;
      }
      if hex.None? {
        var digest := ComputeDigest(q.file, q.start, q.len, q.algo, hash, schedule);
        if digest.None? {
          return None;
        }
        hex := Some(Hex(digest.value));
        var _ := AddCached(q.algo, q.path, q.file.mtime, q.start, q.len, hex.value);
      }
      answer := hex;
      if q.upper {
        var text := ToUpper(hex.value);
        answer := Some(text);
      }
    }
  }

  function Cased(upper: bool, s: string): string {
    if upper then Uppercase(s) else s
  }

  ghost predicate SubTables(tabs: Tables, tabs': Tables)
    requires Complete(tabs) && Complete(tabs')
  {
    forall a: Algo, key :: key in tabs[a] ==> key in tabs'[a] && tabs[a][key] == tabs'[a][key]
  }

  lemma NodesAreWellKeyed(tabs: Tables, keys: seq<Node>, refused: nat)
    requires Complete(tabs)
    requires Consistent(tabs, keys, refused)
    ensures forall i :: 0 <= i < |keys| ==> WellKeyed(keys[i])
  {
    assert forall i :: 0 <= i < |keys| ==> keys[i] in keys;
  }

  /** Nodes already walked past have no entry in their table, before and after a removal. */
  lemma VisitedAfterRemove(tabs: Tables, keys: seq<Node>, tabs': Tables, keys': seq<Node>, i: nat, n: Node)
    requires Complete(tabs) && Complete(tabs')
    requires i < |keys| && keys[i] == n
    requires forall j :: 0 <= j < i ==> keys[j].key !in tabs[keys[j].algo]
    requires tabs' == tabs[n.algo := tabs[n.algo] - {n.key}]
    requires exists k :: 0 <= k < |keys| && keys' == keys[..k] + keys[k + 1..]
    ensures i <= |keys'|
    ensures forall j :: 0 <= j < i ==> keys'[j].key !in tabs'[keys'[j].algo]
  {
    var k :| 0 <= k < |keys| && keys' == keys[..k] + keys[k + 1..];
    forall j | 0 <= j < i ensures keys'[j].key !in tabs'[keys'[j].algo] {
      assert keys'[j] == keys[if j < k then j else j + 1];
    }
  }

  /** Once the walk has stopped, whatever backs a remaining entry lies at or beyond the stop. */
  lemma BackingNodeIsYoung(c: Cache, i: nat, now: int, a: Algo, key: string)
    requires c.Valid()
    requires i <= |c.keys| && (i < |c.keys| ==> !Expired(c.cfg, now, c.keys[i].mtime))
    requires forall j :: 0 <= j < i ==> c.keys[j].key !in c.tabs[c.keys[j].algo]
    requires key in c.tabs[a]
    ensures Young(c.cfg, now, key)
  {
    hide KeyFor, Total;
    assert Backed(c.keys, a, key);
    var n :| n in c.keys && n.algo == a && n.key == key;
    var j :| 0 <= j < |c.keys| && c.keys[j] == n;
    assert i <= j && !Expired(c.cfg, now, n.mtime);
    assert WellKeyed(n);
  }

  /** Pruning in terms of the age rule: an entry stays exactly until maxAge seconds after the
      modification time it is keyed by. */
  lemma PrunedByAge(cfg: Config, tabs: Tables, now: int)
    requires Complete(tabs)
    ensures forall a: Algo, p, m: Int64, s: Int64, l: Size ::
      KeyFor(p, m, s, l) in Pruned(cfg, tabs, now)[a] <==> KeyFor(p, m, s, l) in tabs[a] && now <= m + cfg.maxAge
    ensures SubTables(Pruned(cfg, tabs, now), tabs)
  {
    hide KeyFor;
    forall a: Algo, p, m: Int64, s: Int64, l: Size
      ensures KeyFor(p, m, s, l) in Pruned(cfg, tabs, now)[a] <==>
        KeyFor(p, m, s, l) in tabs[a] && now <= m + cfg.maxAge
    {
      if Young(cfg, now, KeyFor(p, m, s, l)) {
        YoungKey(cfg, now, p, m, s, l);
      }
    }
  }

  lemma YoungKey(cfg: Config, now: int, p: string, m: Int64, s: Int64, l: Size)
    requires Young(cfg, now, KeyFor(p, m, s, l))
    ensures now <= m + cfg.maxAge
  {
    hide KeyFor;
    var p', m', s', l' :| KeyFor(p, m, s, l) == KeyFor(p', m', s', l') && !Expired(cfg, now, m');
    KeysAreInjective(p, m, s, l, p', m', s', l');
  }

  lemma IsPruned(cfg: Config, tabs: Tables, tabs': Tables, now: int)
    requires Complete(tabs) && Complete(tabs') && SubTables(tabs', tabs)
    requires forall a: Algo, key :: key in tabs'[a] ==> Young(cfg, now, key)
    requires forall a: Algo, p, m, s, l ::
      KeyFor(p, m, s, l) in tabs[a] && !Expired(cfg, now, m) ==> KeyFor(p, m, s, l) in tabs'[a]
    ensures tabs' == Pruned(cfg, tabs, now)
  {
    hide KeyFor;
    forall a: Algo ensures tabs'[a] == Pruned(cfg, tabs, now)[a] {
      forall key | key in tabs[a] && Young(cfg, now, key) ensures key in tabs'[a] {
        var p, m, s, l :| key == KeyFor(p, m, s, l) && !Expired(cfg, now, m);
      }
    }
  }

  /** A new node keeps the cache consistent, whether its table takes the entry or not. */
  lemma ConsistentAfterAdd(tabs: Tables, keys: seq<Node>, keys': seq<Node>, n: Node, refused: nat)
    requires Complete(tabs)
    requires Consistent(tabs, keys, refused)
    requires Sorted(keys') && |keys'| == |keys| + 1 && WellKeyed(n)
    requires forall m :: m in keys' <==> m == n || m in keys
    ensures n.key in tabs[n.algo] ==> Consistent(tabs, keys', refused + 1)
    ensures n.key !in tabs[n.algo] ==>
      var tabs' := tabs[n.algo := tabs[n.algo][n.key := n.hex]];
      Consistent(tabs', keys', refused) && Total(tabs') == Total(tabs) + 1
  {
    hide Total, KeyFor;
    forall a: Algo, s | s in tabs[a] ensures Backed(keys', a, s) {
      var m :| m in keys && m.algo == a && m.key == s;
      assert m in keys';
    }
    if n.key !in tabs[n.algo] {
      TotalAfterAdd(tabs, n.algo, n.key, n.hex);
      assert n in keys';
      assert Backed(keys', n.algo, n.key);
    }
  }

  lemma SortedWhenConsistent(tabs: Tables, keys: seq<Node>, refused: nat)
    requires Complete(tabs)
    requires Consistent(tabs, keys, refused)
    ensures Sorted(keys)
  {
  }

  /** Dropping a table entry together with any node of its key keeps the cache consistent,
      and there is such a node. */
  lemma ConsistentAfterRemove(tabs: Tables, keys: seq<Node>, refused: nat,
                              algo: Algo, path: string, mtime: Int64, start: Int64, len: Size)
    requires Complete(tabs)
    requires Consistent(tabs, keys, refused)
    requires KeyFor(path, mtime, start, len) in tabs[algo]
    ensures exists i :: 0 <= i < |keys| && Matches(keys[i], algo, path, mtime, start, len)
    ensures var tabs' := tabs[algo := tabs[algo] - {KeyFor(path, mtime, start, len)}];
            && Total(tabs') == Total(tabs) - 1
            && forall i :: 0 <= i < |keys| && Matches(keys[i], algo, path, mtime, start, len) ==>
                 Consistent(tabs', keys[..i] + keys[i + 1..], refused)
  {
    hide KeyFor, Total;
    var key := KeyFor(path, mtime, start, len);
    TotalAfterRemove(tabs, algo, key);
    assert Backed(keys, algo, key);
    var n :| n in keys && n.algo == algo && n.key == key;
    KeysAreInjective(path, mtime, start, len, n.path, n.mtime, n.start, n.len);
    forall i | 0 <= i < |keys| && Matches(keys[i], algo, path, mtime, start, len)
      ensures Consistent(tabs[algo := tabs[algo] - {key}], keys[..i] + keys[i + 1..], refused)
    {
      ConsistentWithout(tabs, keys, refused, algo, key, i);
    }
  }

  lemma ConsistentWithout(tabs: Tables, keys: seq<Node>, refused: nat, algo: Algo, key: string, i: nat)
    requires Complete(tabs)
    requires Consistent(tabs, keys, refused)
    requires i < |keys| && keys[i].algo == algo && key in tabs[algo]
    requires WellKeyed(keys[i]) ==> keys[i].key == key
    ensures Consistent(tabs[algo := tabs[algo] - {key}], keys[..i] + keys[i + 1..], refused)
  {
    hide KeyFor, Total;
    var tabs', keys' := tabs[algo := tabs[algo] - {key}], keys[..i] + keys[i + 1..];
    TotalAfterRemove(tabs, algo, key);
    assert keys[i] in keys && WellKeyed(keys[i]);
    forall a: Algo, s | s in tabs'[a] ensures Backed(keys', a, s) {
      assert Backed(keys, a, s);
      var m :| m in keys && m.algo == a && m.key == s;
      assert m != keys[i];
      assert m in keys';
    }
  }

  lemma TotalAfterRemove(tabs: Tables, algo: Algo, key: string)
    requires Complete(tabs)
    requires key in tabs[algo]
    ensures Total(tabs[algo := tabs[algo] - {key}]) == Total(tabs) - 1
  {
    var t := tabs[algo];
    assert (t - {key}).Keys == t.Keys - {key};
    assert |(t - {key}).Keys| == |t.Keys| - 1;
  }

  lemma TotalAfterAdd(tabs: Tables, algo: Algo, key: string, value: string)
    requires Complete(tabs)
    requires key !in tabs[algo]
    ensures Total(tabs[algo := tabs[algo][key := value]]) == Total(tabs) + 1
  {
    var t := tabs[algo];
    assert t[key := value].Keys == t.Keys + {key};
    assert |t[key := value].Keys| == |t.Keys| + 1;
  }
}
