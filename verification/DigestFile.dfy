/** compute_digest of contrib/mod_digest.c: a byte range of a file is read block by block,
    through short and interrupted calls, into a digest context.
*/
module DigestFile {
  import opened Basics
  import opened CacheKey
  import opened Crc32
  import opened Gf2

  datatype Algo = CRC32 | MD5 | SHA1 | SHA256 | SHA512

  /** The OpenSSL digests: any function from the bytes absorbed to a digest. */
  type Hash = (Algo, seq<Byte>) -> seq<Byte>

  function DigestBytes(hash: Hash, algo: Algo, data: seq<Byte>): seq<Byte> {
    if algo.CRC32? then Crc(data) else hash(algo, data)
  }

  /** What opening a path and calling fstat on it yields. permitted is the outcome of the
      DigestEnable check on the file's directory. */
  datatype FileState =
    | Absent
    | Present(regular: bool, permitted: bool, mtime: Int64, blksize: nat, content: seq<Byte>)

  /** The outcome of one read: interrupted, or a positive number of bytes, at most as many
      as were asked for. */
  datatype ReadOutcome = Interrupted | TryAgain | Delivers(n: nat)

  /** The read as compute_digest sees it: an errno, or the bytes placed in the buffer. */
  datatype ReadResult = EINTR | EAGAIN | Got(bytes: seq<Byte>)

  /** can_digest_file, and the seek that follows it. */
  predicate CanDigest(file: FileState, start: int, len: nat) {
    && file.Present?
    && file.regular
    && file.permitted
    && 0 <= start
    && start + len <= |file.content|
  }

  /** The EVP context: the in-file CRC-32 for CRC32, the library otherwise. */
  class Evp {
    const algo: Algo
    const hash: Hash
    const crc: Context
    var absorbed: seq<Byte>
    ghost var fed: seq<Byte>

    ghost predicate Valid()
      reads this, crc, crc.table
    {
      && crc.Valid()
      && if algo.CRC32? then Register(crc.data) == CrcRegister(fed) else absorbed == fed
    }

    constructor (algo: Algo, hash: Hash)
      ensures Valid() && fresh(crc) && fresh(crc.table)
      ensures this.algo == algo && this.hash == hash && fed == []
    {
      this.algo := algo;
      this.hash := hash;
      crc := new Context();
      absorbed, fed := [], [];
    }

    method Update(bytes: seq<Byte>)
      requires Valid()
      modifies this, crc
      ensures Valid() && fed == old(fed) + bytes
    {
      hide Register, FeedAll, Bits, Ones;
      if algo.CRC32? {
        UpdateIsIncremental(Ones(32), fed, bytes);
        crc.Update(bytes);
      } else {
        absorbed := absorbed + bytes;
      }
      fed := fed + bytes;
    }

    method Final() returns (md: seq<Byte>)
      requires Valid()
      ensures md == DigestBytes(hash, algo, fed)
      ensures md == if algo.CRC32? then Crc(fed) else hash(algo, fed)
    {
      hide Register, FeedAll, Bits, Ones, CrcRegister;
      if algo.CRC32? {
        md := crc.Final();
      } else {
        md := hash(algo, absorbed);
      }
    }
  }

  /** A read of at most n bytes at pos; the bytes are there, so at least one arrives. */
  method Read(content: seq<Byte>, pos: nat, n: nat, outcome: ReadOutcome) returns (r: ReadResult)
    requires pos + n <= |content|
    ensures outcome.Interrupted? ==> r == EINTR
    ensures outcome.TryAgain? ==> r == EAGAIN
    ensures outcome.Delivers? ==> r.Got?
    ensures r.Got? ==> |r.bytes| <= n && r.bytes == content[pos..pos + |r.bytes|] && (n > 0 ==> r.bytes != [])
  {
    match outcome
    case Interrupted => r := EINTR;
    case TryAgain => r := EAGAIN;
    case Delivers(k) =>
      var take := if k > n then n else if k == 0 && n > 0 then 1 else k;
      r := Got(content[pos..pos + take]);
  }

  function OutcomeAt(schedule: seq<ReadOutcome>, t: nat, n: nat): ReadOutcome {
    if t < |schedule| then schedule[t] else Delivers(n)
  }

  /** The read loop: every byte of content[start..start + len] is absorbed once, in order,
      whatever the schedule of short and interrupted reads; and the loop ends. */
  method AbsorbRange(evp: Evp, content: seq<Byte>, start: nat, len: nat, bufsz: nat,
                     schedule: seq<ReadOutcome>)
    requires evp.Valid()
    requires start + len <= |content| && bufsz > 0
    modifies evp, evp.crc
    ensures evp.Valid()
    ensures evp.fed == old(evp.fed) + content[start..start + len]
  {
    hide Evp.Valid;
    var remaining := len;
    var readsz := if bufsz > remaining then remaining else bufsz;
    var calls := 1;
    var last := Read(content, start, readsz, OutcomeAt(schedule, 0, readsz));
    var pos := start + if last.Got? then |last.bytes| else 0;
    ghost var done := start;
    while remaining > 0
      invariant evp.Valid()
      invariant calls > 0 && (!last.Got? ==> calls <= |schedule|)
      invariant readsz == if bufsz > remaining then remaining else bufsz
      invariant start <= done <= pos <= start + len && remaining == start + len - done
      invariant last.Got? ==> last.bytes == content[done..pos] && (remaining > 0 ==> done < pos)
      invariant !last.Got? ==> pos == done
      invariant evp.fed == old(evp.fed) + content[start..done]
      decreases remaining, if last.Got? then 0 else |schedule| - calls + 1
    {
      if last.Got? {
        evp.Update(last.bytes);
        remaining := remaining - |last.bytes|;
        assert content[start..done] + content[done..pos] == content[start..pos];
        done := pos;
        readsz := if bufsz > remaining then remaining else bufsz;
      }
      // EAGAIN is treated as EINTR: ask again, nothing was consumed
      last := Read(content, pos, readsz, OutcomeAt(schedule, calls, readsz));
      calls := calls + 1;
      pos := pos + if last.Got? then |last.bytes| else 0;
    }
  }

  /** compute_digest: refused exactly when the range cannot be digested; otherwise the
      digest of exactly that range, independent of how the reads were chunked. */
  method ComputeDigest(file: FileState, start: int, len: nat, algo: Algo, hash: Hash,
                       schedule: seq<ReadOutcome>) returns (digest: Option<seq<Byte>>)
    requires file.Present? ==> file.blksize > 0
    ensures digest.Some? <==> CanDigest(file, start, len)
    ensures digest.Some? ==> digest.value == DigestBytes(hash, algo, file.content[start..start + len])
    ensures digest.Some? ==>
      digest.value == var range := file.content[start..start + len];
                      match algo
                      case CRC32 => Crc(range)
                      case MD5 => hash(MD5, range)
                      case SHA1 => hash(SHA1, range)
                      case SHA256 => hash(SHA256, range)
                      case SHA512 => hash(SHA512, range)
    ensures digest.Some? <==>
      file.Present? && file.regular && file.permitted && 0 <= start && start + len <= |file.content|
  {
    hide Evp.Valid, DigestBytes, Crc;
    if file.Absent? {
      return None;
    }
    if !file.regular
       || (start > 0 && start > |file.content|)
       || (len > 0 && start + len > |file.content|)
       || !file.permitted
    {
      return None;
    }
    if start < 0 {
      // lseek refuses a negative offset
      return None;
    }
    var evp := new Evp(algo, hash);
    AbsorbRange(evp, file.content, start, len, file.blksize, schedule);
    assert [] + file.content[start..start + len] == file.content[start..start + len];
    var md := evp.Final();
    digest := Some(md);
  }
}
