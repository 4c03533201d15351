/** The tally table of contrib/mod_quotatab_file.c: records of 121 bytes behind a 4-byte
    header, reached through a file offset that every operation moves and puts back.
*/
module TallyFile {
  import opened Basics

  const HEADER: nat := 4
  const RECORD: nat := 121
  const NAME: nat := 81

  // ----- Records -----

  type Word32 = w: int | 0 <= w < 0x1_0000_0000

  /** quota_tally_t. The doubles are carried as their eight bytes. */
  datatype Tally = Tally(name: seq<Byte>, quotaType: Word32,
                         bytesIn: seq<Byte>, bytesOut: seq<Byte>, bytesXfer: seq<Byte>,
                         filesIn: Word32, filesOut: Word32, filesXfer: Word32)

  predicate TallyOk(t: Tally) {
    |t.name| == NAME && |t.bytesIn| == |t.bytesOut| == |t.bytesXfer| == 8
  }

  /** An unsigned int in memory, least significant byte first. */
  function WordBytes(w: Word32): (b: seq<Byte>)
    ensures |b| == 4
  {
    [w % 256, w / 0x100 % 256, w / 0x1_0000 % 256, w / 0x100_0000]
  }

  function WordOf(b: seq<Byte>): Word32
    requires |b| == 4
  {
    b[0] as int + b[1] as int * 0x100 + b[2] as int * 0x1_0000 + b[3] as int * 0x100_0000
  }

  lemma WordRoundTrip(w: Word32)
    ensures WordOf(WordBytes(w)) == w
  {
    var a := w / 0x100;
    var b := a / 0x100;
    assert w / 0x1_0000 == b && w / 0x100_0000 == b / 0x100;
    assert w == w % 0x100 + 0x100 * a;
    assert a == a % 0x100 + 0x100 * b;
    assert b == b % 0x100 + 0x100 * (b / 0x100);
  }

  /** The eight vectors of the writev call, in order. */
  function Encode(t: Tally): (b: seq<Byte>)
    requires TallyOk(t)
    ensures |b| == RECORD
  {
    t.name + WordBytes(t.quotaType) + t.bytesIn + t.bytesOut + t.bytesXfer
    + WordBytes(t.filesIn) + WordBytes(t.filesOut) + WordBytes(t.filesXfer)
  }

  /** The eight vectors of the readv call, in order. */
  function Decode(b: seq<Byte>): (t: Tally)
    requires |b| == RECORD
    ensures TallyOk(t)
  {
    Tally(b[..81], WordOf(b[81..85]), b[85..93], b[93..101], b[101..109],
          WordOf(b[109..113]), WordOf(b[113..117]), WordOf(b[117..121]))
  }

  /** Where each field of a tally is in its record: the name, then the numbers in the order of
      quota_tally_t, integers least significant byte first. */
  lemma RecordLayout(t: Tally)
    requires TallyOk(t)
    ensures var b := Encode(t);
            && |b| == 121
            && b[..81] == t.name
            && IsWordAt(b, 81, t.quotaType)
            && b[85..93] == t.bytesIn && b[93..101] == t.bytesOut && b[101..109] == t.bytesXfer
            && IsWordAt(b, 109, t.filesIn) && IsWordAt(b, 113, t.filesOut) && IsWordAt(b, 117, t.filesXfer)
  {
    hide WordOf;
    var b := Encode(t);
    assert b[81..85] == WordBytes(t.quotaType) && b[109..113] == WordBytes(t.filesIn);
    assert b[113..117] == WordBytes(t.filesOut) && b[117..121] == WordBytes(t.filesXfer);
    WordIsAt(b, 81, t.quotaType);
    WordIsAt(b, 109, t.filesIn);
    WordIsAt(b, 113, t.filesOut);
    WordIsAt(b, 117, t.filesXfer);
  }

  /** Four bytes from an offset on are a number, least significant first. */
  predicate IsWordAt(b: seq<Byte>, at: nat, w: Word32)
    requires at + 4 <= |b|
  {
    w == b[at] as int + 256 * (b[at + 1] as int + 256 * (b[at + 2] as int + 256 * b[at + 3] as int))
  }

  lemma WordIsAt(b: seq<Byte>, at: nat, w: Word32)
    requires at + 4 <= |b| && b[at..at + 4] == WordBytes(w)
    ensures IsWordAt(b, at, w)
  {
    var x := b[at..at + 4];
    assert b[at] == x[0] && b[at + 1] == x[1] && b[at + 2] == x[2] && b[at + 3] == x[3];
    var u := w / 0x100;
    var v := u / 0x100;
    assert w / 0x1_0000 == v && w / 0x100_0000 == v / 0x100;
  }

  /** Reading back a written tally gives the tally. */
  lemma DecodeEncode(t: Tally)
    requires TallyOk(t)
    ensures Decode(Encode(t)) == t
  {
    hide WordBytes, WordOf;
    var b := Encode(t);
    assert b[..81] == t.name && b[81..85] == WordBytes(t.quotaType);
    assert b[85..93] == t.bytesIn && b[93..101] == t.bytesOut && b[101..109] == t.bytesXfer;
    assert b[109..113] == WordBytes(t.filesIn) && b[113..117] == WordBytes(t.filesOut);
    assert b[117..121] == WordBytes(t.filesXfer);
    WordRoundTrip(t.quotaType);
    WordRoundTrip(t.filesIn);
    WordRoundTrip(t.filesOut);
    WordRoundTrip(t.filesXfer);
  }

  lemma BytesRoundTrip(b: seq<Byte>)
    requires |b| == 4
    ensures WordBytes(WordOf(b)) == b
  {
    var w := WordOf(b);
    var a := b[1] as int + b[2] as int * 0x100 + b[3] as int * 0x1_0000;
    var c := b[2] as int + b[3] as int * 0x100;
    assert w == b[0] as int + 0x100 * a && a == b[1] as int + 0x100 * c;
    assert w % 0x100 == b[0] && w / 0x100 == a;
    assert a % 0x100 == b[1] && a / 0x100 == c;
    assert c % 0x100 == b[2] && c / 0x100 == b[3];
    assert w / 0x1_0000 == c && w / 0x100_0000 == b[3];
    assert WordBytes(w) == [b[0], b[1], b[2], b[3]];
  }

  /** Every record is the encoding of the tally it decodes to. */
  lemma EncodeDecode(b: seq<Byte>)
    requires |b| == RECORD
    ensures Encode(Decode(b)) == b
  {
    hide WordBytes, WordOf;
    BytesRoundTrip(b[81..85]);
    BytesRoundTrip(b[109..113]);
    BytesRoundTrip(b[113..117]);
    BytesRoundTrip(b[117..121]);
    assert b == b[..81] + b[81..85] + b[85..93] + b[93..101] + b[101..109]
              + b[109..113] + b[113..117] + b[117..121];
  }

  // ----- The file as a sequence of records -----

  predicate WellFormed(data: seq<Byte>) {
    |data| >= HEADER && (|data| - HEADER) % RECORD == 0
  }

  function Size(data: seq<Byte>): (n: nat)
    requires WellFormed(data)
    ensures |data| == HEADER + RECORD * n
  {
    (|data| - HEADER) / RECORD
  }

  function Offset(i: nat): nat {
    HEADER + RECORD * i
  }

  function RecordAt(data: seq<Byte>, i: nat): (r: seq<Byte>)
    requires Offset(i) + RECORD <= |data|
    ensures |r| == RECORD
  {
    data[Offset(i)..Offset(i) + RECORD]
  }

  function Records(data: seq<Byte>): (rs: seq<seq<Byte>>)
    requires WellFormed(data)
    ensures |rs| == Size(data)
    ensures forall i :: 0 <= i < |rs| ==> rs[i] == RecordAt(data, i)
  {
    seq(Size(data), i requires 0 <= i < Size(data) => RecordAt(data, i))
  }

  /** What a write of b at an offset not past the end leaves in the file. */
  function Splice(data: seq<Byte>, pos: nat, b: seq<Byte>): seq<Byte>
    requires pos <= |data|
  {
    data[..pos] + b + (if pos + |b| < |data| then data[pos + |b|..] else [])
  }

  /** Writing a whole record at a record boundary replaces that record, or appends one at
      the end; no other record changes. */
  lemma SpliceRecord(data: seq<Byte>, i: nat, b: seq<Byte>)
    requires WellFormed(data) && i <= Size(data) && |b| == RECORD
    ensures WellFormed(Splice(data, Offset(i), b))
    ensures Records(Splice(data, Offset(i), b))
         == if i < Size(data) then Records(data)[i := b] else Records(data) + [b]
  {
    var data' := Splice(data, Offset(i), b);
    assert |data'| == if i < Size(data) then |data| else |data| + RECORD;
    var expected := if i < Size(data) then Records(data)[i := b] else Records(data) + [b];
    forall k | 0 <= k < Size(data') ensures RecordAt(data', k) == expected[k] {
      RecordAfterSplice(data, i, b, k);
    }
  }

  lemma RecordAfterSplice(data: seq<Byte>, i: nat, b: seq<Byte>, k: nat)
    requires WellFormed(data) && i <= Size(data) && |b| == RECORD
    requires k < Size(data) || k == i
    ensures Offset(k) + RECORD <= |Splice(data, Offset(i), b)|
    ensures RecordAt(Splice(data, Offset(i), b), k) == if k == i then b else RecordAt(data, k)
  {
    var data' := Splice(data, Offset(i), b);
    if k < i {
      RecordsAreDisjoint(k, i);
    } else if k > i {
      RecordsAreDisjoint(i, k);
    }
    forall x | 0 <= x < RECORD
      ensures RecordAt(data', k)[x] == if k == i then b[x] else RecordAt(data, k)[x]
    {
      ByteAfterSplice(data, Offset(i), b, Offset(k) + x);
    }
  }

  lemma ByteAfterSplice(data: seq<Byte>, pos: nat, b: seq<Byte>, x: nat)
    requires pos <= |data| && (x < |data| || x < pos + |b|)
    ensures x < |Splice(data, pos, b)|
    ensures Splice(data, pos, b)[x] == if pos <= x < pos + |b| then b[x - pos] else data[x]
  {
  }

  /** Different records occupy disjoint bytes. */
  lemma RecordsAreDisjoint(i: nat, j: nat)
    requires i < j
    ensures Offset(i) + RECORD <= Offset(j)
  {
  }

  /** Writing the first bytes of a record over another leaves the rest of the old one. */
  lemma PartOfRecord(data: seq<Byte>, i: nat, part: seq<Byte>)
    requires WellFormed(data) && i < Size(data) && |part| <= RECORD
    ensures Offset(i) + RECORD <= |data|
    ensures Splice(data, Offset(i), part) == Splice(data, Offset(i), part + RecordAt(data, i)[|part|..])
  {
    RecordsAreDisjoint(i, Size(data));
    var whole := part + RecordAt(data, i)[|part|..];
    var left, right := Splice(data, Offset(i), part), Splice(data, Offset(i), whole);
    assert |left| == |right| == |data|;
    forall x | 0 <= x < |data| ensures left[x] == right[x] {
      ByteAfterSplice(data, Offset(i), part, x);
      ByteAfterSplice(data, Offset(i), whole, x);
    }
  }

  // ----- Matching -----

  const ALL_QUOTA: int := 10

  /** The text of a fixed-size character field: up to its first NUL. */
  function Text(field: seq<Byte>): seq<Byte> {
    if field == [] || field[0] == 0 then [] else [field[0]] + Text(field[1..])
  }

  /** The comparison of filetab_lookup. */
  predicate IsMatch(t: Tally, name: Option<seq<Byte>>, quotaType: Word32) {
    && quotaType == t.quotaType
    && ((name.Some? && name.value == Text(t.name)) || quotaType == ALL_QUOTA)
  }

  lemma {:induction false} TextOfPadded(name: seq<Byte>, rest: seq<Byte>)
    requires 0 !in name
    ensures Text(name + [0] + rest) == name
  {
    var field := name + [0] + rest;
    if name != [] {
      assert field[1..] == name[1..] + [0] + rest;
      TextOfPadded(name[1..], rest);
    }
  }

  /** A tally read back from its record is found by its own type and, unless the type is
      ALL_QUOTA, its own name. */
  lemma MatchOfEncoded(t: Tally, name: Option<seq<Byte>>, quotaType: Word32)
    requires TallyOk(t)
    ensures IsMatch(Decode(Encode(t)), name, quotaType) <==>
      t.quotaType == quotaType && (quotaType == 10 || name == Some(Text(t.name)))
  {
    hide Encode, Decode, Text;
    DecodeEncode(t);
  }

  /** A tally stored under a name that is padded with NULs is found under that name and no other. */
  lemma MatchOfPadded(t: Tally, text: seq<Byte>, rest: seq<Byte>, name: seq<Byte>, quotaType: Word32)
    requires TallyOk(t) && 0 !in text && t.name == text + [0] + rest
    ensures IsMatch(Decode(Encode(t)), Some(name), quotaType) <==>
      t.quotaType == quotaType && (quotaType == 10 || name == text)
  {
    hide Encode, Decode, Text;
    MatchOfEncoded(t, Some(name), quotaType);
    TextOfPadded(text, rest);
  }

  // ----- One lookup over any file -----

  /** What a read at an offset inside the file makes of the caller's record: as much of it as the
      file has left is replaced. */
  function Filled(data: seq<Byte>, pos: nat, buf: seq<Byte>): (r: seq<Byte>)
    requires pos < |data| && |buf| == RECORD
    ensures |r| == RECORD
  {
    if pos + RECORD <= |data| then data[pos..pos + RECORD] else data[pos..] + buf[|data| - pos..]
  }

  /** How a lookup ends: whether it found a record, the offset and the caller's record. */
  datatype Looked = Looked(found: bool, pos: nat, buf: seq<Byte>)

  predicate FailsAt(ios: seq<seq<Io>>, i: nat) {
    i < |ios| && Failed in ios[i]
  }

  /** The lookup loop from its i-th read on, for any file contents; ios are the outcomes of its
      reads. */
  function Scan(data: seq<Byte>, i: nat, buf: seq<Byte>, ios: seq<seq<Io>>,
                name: Option<seq<Byte>>, quotaType: Word32): (r: Looked)
    requires |buf| == RECORD
    ensures |r.buf| == RECORD
    decreases |data| - Offset(i)
  {
    if FailsAt(ios, i) || Offset(i) >= |data| then Looked(false, Offset(i), buf) else
      var buf' := Filled(data, Offset(i), buf);
      if IsMatch(Decode(buf'), name, quotaType) then Looked(true, Offset(i), buf')
      else Scan(data, i + 1, buf', ios, name, quotaType)
  }

  // ----- The open file -----

  /** How the system calls of one operation go: interruptions, or a hard error. */
  datatype Io = Interrupted | Failed

  datatype LockMode = ReadLock | WriteLock

  class File {
    var data: seq<Byte>
    var pos: nat
    /** The bytes this process holds locked. */
    var locks: nat -> Option<LockMode>

    constructor (data: seq<Byte>)
      ensures this.data == data && pos == 4 && forall p: nat :: locks(p) == None
    {
      this.data, pos, locks := data, HEADER, _ => None;
    }

    /** filetab_rlock and filetab_wlock: the range is 121 bytes from the current offset. */
    method SetLock(mode: LockMode, granted: bool) returns (ok: bool)
      modifies this`locks
      ensures ok == granted
      ensures forall p: nat ::
        locks(p) == if granted && pos <= p < pos + 121 then Some(mode) else old(locks)(p)
    {
      if granted {
        var before, from := locks, pos;
        locks := (p: nat) => if from <= p < from + RECORD then Some(mode) else before(p);
      }
      return granted;
    }

    /** filetab_unlock. */
    method ClearLock()
      modifies this`locks
      ensures forall p: nat :: locks(p) == if pos <= p < pos + 121 then None else old(locks)(p)
    {
      var before, from := locks, pos;
      locks := (p: nat) => if from <= p < from + RECORD then None else before(p);
    }

    /** The retry loop around readv and writev. */
    static method Retry(io: seq<Io>) returns (ok: bool)
      ensures ok <==> Failed !in io
    {
      for i := 0 to |io|
        invariant Failed !in io[..i]
      {
        if io[i].Failed? {
          return false;
        }
        assert io[..i + 1] == io[..i] + [io[i]];
      }
      assert io[..|io|] == io;
      return true;
    }

    /** filetab_read: fills as much of the caller's record as the file has left, and puts the
        offset back. */
    method ReadRecord(buf: seq<Byte>, io: seq<Io>) returns (res: int, buf': seq<Byte>)
      requires |buf| == RECORD
      modifies this`pos
      ensures pos == old(pos) && |buf'| == RECORD
      ensures Failed in io || pos >= |data| ==> res == -1 && buf' == buf
      ensures Failed !in io && pos < |data| ==>
        && res == (if RECORD <= |data| - pos then RECORD else |data| - pos)
        && buf' == Filled(data, pos, buf)
    {
      var current := pos;
      var ok := Retry(io);
      if !ok {
        return -1, buf;
      }
      var left := if pos < |data| then |data| - pos else 0;
      res := if RECORD <= left then RECORD else left;
      buf' := buf;
      if res > 0 {
        buf' := data[pos..pos + res] + buf[res..];
        pos := pos + res;
        pos := current;
      } else {
        res := -1;
      }
    }

    /** filetab_write, the kernel taking wrote of the 121 bytes: overwrites at the offset and
        puts the offset back. Anything but zero counts as success. */
    method WriteRecord(record: seq<Byte>, io: seq<Io>, wrote: nat) returns (res: int)
      requires |record| == RECORD && wrote <= RECORD && pos <= |data|
      modifies this`data, this`pos
      ensures pos == old(pos)
      ensures Failed in io || wrote == 0 ==> res == -1 && data == old(data)
      ensures Failed !in io && wrote > 0 ==> res == wrote && data == Splice(old(data), pos, record[..wrote])
    {
      var current := pos;
      var ok := Retry(io);
      if !ok {
        return -1;
      }
      if wrote == 0 {
        return -1;
      }
      data := Splice(data, pos, record[..wrote]);
      pos := pos + wrote;
      pos := current;
      return wrote;
    }

    /** filetab_create: appends, and leaves the offset on the start of what was appended. */
    method CreateRecord(record: seq<Byte>, io: seq<Io>, wrote: nat) returns (res: int)
      requires |record| == RECORD && wrote <= RECORD
      modifies this`data, this`pos
      ensures pos == |old(data)|
      ensures Failed in io || wrote == 0 ==> res == -1 && data == old(data)
      ensures Failed !in io && wrote > 0 ==> res == wrote && data == old(data) + record[..wrote]
    {
      pos := |data|;
      res := WriteRecord(record, io, wrote);
    }

    /** filetab_lookup. */
    method LookupRecord(buf: seq<Byte>, ios: seq<seq<Io>>, name: Option<seq<Byte>>, quotaType: Word32)
      returns (found: bool, buf': seq<Byte>)
      requires |buf| == RECORD
      modifies this`pos
      ensures Scan(data, 0, buf, ios, name, quotaType) == Looked(found, pos, buf')
    {
      hide IsMatch, Decode;
      pos := HEADER;
      buf' := buf;
      var i := 0;
      while true
        invariant pos == Offset(i) && |buf'| == RECORD
        invariant Scan(data, i, buf', ios, name, quotaType) == Scan(data, 0, buf, ios, name, quotaType)
        decreases |data| - pos
      {
        var res;
        res, buf' := ReadRecord(buf', if i < |ios| then ios[i] else []);
        if res < 0 {
          return false, buf';
        }
        if IsMatch(Decode(buf'), name, quotaType) {
          return true, buf';
        }
        pos := pos + RECORD;
        i := i + 1;
      }
    }
  }

  /** A create the kernel cuts short still reports success; the file stays well-formed
      exactly when it was not cut. */
  lemma ShortCreateBreaksTheFile(data: seq<Byte>, record: seq<Byte>, wrote: nat)
    requires WellFormed(data) && |record| == RECORD && 0 < wrote <= RECORD
    ensures WellFormed(data + record[..wrote]) <==> wrote == RECORD
  {
    assert |data + record[..wrote]| - HEADER == RECORD * Size(data) + wrote;
  }
}
