/** The data-stream callbacks of contrib/mod_deflate.c: inflated bytes waiting in a buffer for
    the reader, deflated bytes waiting in the same buffer for the socket, and the raw byte
    counters. zlib is an oracle that appends output to the buffer.
*/
module DeflateStream {
  import opened Basics

  // ----- Reading -----

  /** One read from the network and the inflate call after it: n compressed bytes came in,
      out was produced, left compressed bytes are still unread. */
  datatype Inflation =
    | NetError
    | Inflates(n: nat, out: seq<Byte>, left: nat)
    | InflateError(n: nat, left: nat)

  /** What the reader holds between calls: bytes inflated and not yet handed out, the count of
      unread compressed bytes, and session.total_raw_in. */
  datatype Reading = Reading(buffered: seq<Byte>, availIn: nat, raw: int)

  /** A call returns the number of bytes handed out, 0 at the end of the stream, or -1 when
      the caller should ask again or give up. */
  datatype ReadResult = ReadResult(after: Reading, res: int, data: seq<Byte>)

  /** The network has ended, and nothing compressed is left to inflate. */
  predicate AtEnd(z: Inflation, availIn: nat) {
    !z.NetError? && z.n == 0 && availIn == 0
  }

  /** One read of at most bufsz bytes, the caller's addition to the counter included. */
  function ReadStep(s: Reading, bufsz: nat, z: Inflation): ReadResult {
    if bufsz == 0 then ReadResult(s, 0, [])
    else if s.buffered != [] then
      var k := if bufsz >= |s.buffered| then |s.buffered| else bufsz;
      ReadResult(s.(buffered := s.buffered[k..]), k, s.buffered[..k])
    else if AtEnd(z, s.availIn) then ReadResult(s, 0, [])
    else
      match z
      case NetError => ReadResult(s, -1, [])
      case Inflates(n, out, left) => ReadResult(Reading(out, left, s.raw + n), -1, [])
      case InflateError(n, left) => ReadResult(s.(availIn := left, raw := s.raw + n), -1, [])
  }

  class Reader {
    const zbuf: array<Byte>
    /** deflate_zbuf, as an offset from the start of the buffer. */
    var off: nat
    var zlen: nat
    var availIn: nat
    /** session.total_raw_in; it goes down before the caller adds the result back. */
    var rawIn: int

    /** An empty buffer has its pointer at its base. */
    ghost predicate Valid()
      reads this
    {
      off + zlen <= zbuf.Length && (zlen == 0 ==> off == 0)
    }

    function View(): Reading
      requires Valid()
      reads this, zbuf
    {
      Reading(zbuf[off..off + zlen], availIn, rawIn)
    }

    constructor (size: nat)
      requires size > 0
      ensures Valid() && fresh(zbuf) && zbuf.Length == size
      ensures View() == Reading([], 0, 0)
    {
      zbuf := new Byte[size](_ => 0);
      off, zlen, availIn, rawIn := 0, 0, 0, 0;
    }

    /** The first half of deflate_netio_read_cb: hand out what is already inflated. */
    method TakeBuffered(bufsz: nat) returns (data: seq<Byte>)
      requires Valid() && zlen > 0 && bufsz > 0
      modifies this
      ensures Valid()
      ensures |data| == if bufsz >= old(zlen) then old(zlen) else bufsz
      ensures old(View()).buffered == data + View().buffered
      ensures availIn == old(availIn) && rawIn == old(rawIn) - |data|
    {
      var take := if bufsz >= zlen then zlen else bufsz;
      data := zbuf[off..off + take];
      assert zbuf[off..off + zlen] == data + zbuf[off + take..off + zlen];
      if bufsz >= zlen {
        off, zlen := 0, 0;
      } else {
        off, zlen := off + bufsz, zlen - bufsz;
      }
      rawIn := rawIn - take;
    }

    /** The second half: read from the network and inflate into the empty buffer. inflate writes
        at the buffer pointer with the whole buffer size as room, so the pointer must be at the
        base. */
    method Refill(z: Inflation) returns (res: int)
      requires Valid() && zlen == 0
      requires z.Inflates? ==> |z.out| <= zbuf.Length
      modifies this, zbuf
      ensures Valid()
      ensures ReadStep(old(View()), 1, z) == ReadResult(View(), res, [])
      ensures res == if !z.NetError? && z.n == 0 && old(availIn) == 0 then 0 else -1
    {
      if z.NetError? {
        return -1;
      }
      if z.n == 0 && availIn == 0 {
        return 0;
      }
      rawIn := rawIn + z.n;
      availIn := z.left;
      if z.Inflates? {
        forall i | 0 <= i < |z.out| {
          zbuf[off + i] := z.out[i];
        }
        zlen := |z.out|;
        assert zbuf[off..off + zlen] == z.out;
      }
      return -1;
    }

    /** deflate_netio_read_cb, before the caller has added the result to the counter. */
    method Read(bufsz: nat, z: Inflation) returns (res: int, data: seq<Byte>)
      requires Valid()
      requires z.Inflates? ==> |z.out| <= zbuf.Length
      modifies this, zbuf
      ensures Valid()
      ensures res > 0 <==> bufsz > 0 && old(zlen) > 0
      ensures res > 0 ==> res == |data| <= bufsz
      ensures bufsz > 0 ==>
        (res == 0 <==> old(zlen) == 0 && !z.NetError? && z.n == 0 && old(availIn) == 0)
      ensures res <= 0 ==> data == []
      ensures ReadStep(old(View()), bufsz, z) == ReadResult(View().(raw := rawIn + |data|), res, data)
    {
      data := [];
      if bufsz == 0 {
        return 0, data;
      }
      if zlen > 0 {
        ghost var all := View().buffered;
        data := TakeBuffered(bufsz);
        assert all[..|data|] == data && all[|data|..] == View().buffered;
        return |data|, data;
      }
      res := Refill(z);
    }

    /** pr_netio_read around the callback: adds what was returned to the raw counter. */
    method ReadAndCount(bufsz: nat, z: Inflation) returns (res: int, data: seq<Byte>)
      requires Valid()
      requires z.Inflates? ==> |z.out| <= zbuf.Length
      modifies this, zbuf
      ensures Valid()
      ensures bufsz > 0 ==>
        (res == 0 <==> old(zlen) == 0 && !z.NetError? && z.n == 0 && old(availIn) == 0)
      ensures ReadStep(old(View()), bufsz, z) == ReadResult(View(), res, data)
    {
      res, data := Read(bufsz, z);
      if res > 0 {
        rawIn := rawIn + res;
      }
    }
  }

  // ----- Runs of reads -----

  /** A run in progress: the reader, all bytes handed out so far, and how much of the
      network's feed has been used. */
  datatype ReadRun = ReadRun(reader: Reading, given: seq<Byte>, used: nat)

  /** The i-th read from the network; past the end of the feed nothing comes. */
  function FeedAt(feed: seq<Inflation>, i: nat): Inflation {
    if i < |feed| then feed[i] else NetError
  }

  /** A request goes to the network only when it asks for something and nothing is buffered. */
  predicate GoesToNet(s: ReadRun, bufsz: nat) {
    bufsz > 0 && s.reader.buffered == []
  }

  function AfterReads(requests: seq<nat>, feed: seq<Inflation>): ReadRun
    decreases |requests|
  {
    if requests == [] then ReadRun(Reading([], 0, 0), [], 0) else
      var s := AfterReads(requests[..|requests| - 1], feed);
      var bufsz := requests[|requests| - 1];
      var r := ReadStep(s.reader, bufsz, FeedAt(feed, s.used));
      ReadRun(r.after, s.given + r.data, if GoesToNet(s, bufsz) && s.used < |feed| then s.used + 1 else s.used)
  }

  /** What inflate made of a feed, the unread input after it, and its compressed bytes. */
  datatype Made = Made(bytes: seq<Byte>, availIn: nat, net: int)

  function MakesMore(m: Made, z: Inflation): Made {
    if z.NetError? || AtEnd(z, m.availIn) then m
    else Made(if z.Inflates? then m.bytes + z.out else m.bytes, z.left, m.net + z.n)
  }

  function Makes(feed: seq<Inflation>): Made
    decreases |feed|
  {
    if feed == [] then Made([], 0, 0) else MakesMore(Makes(feed[..|feed| - 1]), feed[|feed| - 1])
  }

  /** The reader serves every request of any run as specified. */
  method RunReads(size: nat, requests: seq<nat>, feed: seq<Inflation>) returns (given: seq<Byte>, r: Reader)
    requires size > 0
    requires forall i :: 0 <= i < |feed| && feed[i].Inflates? ==> |feed[i].out| <= size
    ensures r.Valid() && r.View() == AfterReads(requests, feed).reader
    ensures given == AfterReads(requests, feed).given
  {
    hide ReadStep;
    r := new Reader(size);
    given := [];
    var used := 0;
    for k := 0 to |requests|
      invariant fresh(r) && fresh(r.zbuf) && r.Valid() && r.zbuf.Length == size
      invariant ReadRun(r.View(), given, used) == AfterReads(requests[..k], feed)
    {
      assert requests[..k + 1][..k] == requests[..k];
      var goes := requests[k] > 0 && r.zlen == 0;
      assert goes == GoesToNet(AfterReads(requests[..k], feed), requests[k]);
      var _, data := r.ReadAndCount(requests[k], FeedAt(feed, used));
      given := given + data;
      if goes && used < |feed| {
        used := used + 1;
      }
    }
    assert requests[..|requests|] == requests;
  }

  /** Whatever the requests and the feed: the bytes handed out, followed by those still
      buffered, are what inflate made of the feed used so far, and the counter is the number
      of compressed bytes read. */
  lemma {:induction false} NothingInflatedIsLost(requests: seq<nat>, feed: seq<Inflation>)
    ensures var s := AfterReads(requests, feed);
            && s.used <= |feed|
            && Makes(feed[..s.used]) == Amounts(s.reader, s.given)
    decreases |requests|
  {
    hide ReadStep, MakesMore;
    if requests != [] {
      var k := |requests| - 1;
      NothingInflatedIsLost(requests[..k], feed);
      var s := AfterReads(requests[..k], feed);
      ReadKeepsAll(s.reader, s.given, requests[k], FeedAt(feed, s.used));
      if s.used < |feed| {
        assert feed[..s.used + 1][..s.used] == feed[..s.used];
      }
    }
  }

  /** What a reader and the bytes it has handed out amount to. */
  function Amounts(r: Reading, given: seq<Byte>): Made {
    Made(given + r.buffered, r.availIn, r.raw)
  }

  lemma ReadKeepsAll(r: Reading, given: seq<Byte>, bufsz: nat, z: Inflation)
    ensures Amounts(ReadStep(r, bufsz, z).after, given + ReadStep(r, bufsz, z).data)
         == if bufsz > 0 && r.buffered == [] then MakesMore(Amounts(r, given), z) else Amounts(r, given)
    ensures MakesMore(Amounts(r, given), NetError) == Amounts(r, given)
  {
    var res := ReadStep(r, bufsz, z);
    if bufsz > 0 && r.buffered != [] {
      assert given + r.buffered == given + res.data + res.after.buffered;
    }
  }

  function Asking(requests: seq<nat>): nat
    decreases |requests|
  {
    if requests == [] then 0
    else Asking(requests[..|requests| - 1]) + if requests[|requests| - 1] > 0 then 1 else 0
  }

  predicate Finished(s: ReadRun, feed: seq<Inflation>) {
    s.used == |feed| && s.reader.buffered == []
  }

  /** Every request that asks for something makes progress until nothing is left. */
  lemma {:induction false} RequestsMakeProgress(requests: seq<nat>, feed: seq<Inflation>)
    ensures var s := AfterReads(requests, feed); Finished(s, feed) || s.used + |s.given| >= Asking(requests)
    decreases |requests|
  {
    if requests != [] {
      RequestsMakeProgress(requests[..|requests| - 1], feed);
      NothingInflatedIsLost(requests[..|requests| - 1], feed);
    }
  }

  lemma {:induction false} MakesGrows(feed: seq<Inflation>, k: nat)
    requires k <= |feed|
    ensures |Makes(feed[..k]).bytes| <= |Makes(feed).bytes|
    decreases |feed|
  {
    if k == |feed| {
      assert feed[..k] == feed;
    } else {
      assert feed[..|feed| - 1][..k] == feed[..k];
      MakesGrows(feed[..|feed| - 1], k);
    }
  }

  /** Enough requests of any positive sizes return everything inflate made of the whole feed. */
  lemma {:induction false} EnoughReadsReturnEverything(requests: seq<nat>, feed: seq<Inflation>)
    requires Asking(requests) >= |feed| + |Makes(feed).bytes|
    ensures AfterReads(requests, feed).given == Makes(feed).bytes
    ensures Finished(AfterReads(requests, feed), feed)
  {
    var s := AfterReads(requests, feed);
    RequestsMakeProgress(requests, feed);
    NothingInflatedIsLost(requests, feed);
    MakesGrows(feed, s.used);
    assert feed[..|feed|] == feed;
  }

  /** The result of the k-th request of a run. */
  function ResultAt(requests: seq<nat>, feed: seq<Inflation>, k: nat): int
    requires k < |requests|
  {
    var s := AfterReads(requests[..k], feed);
    ReadStep(s.reader, requests[k], FeedAt(feed, s.used)).res
  }

  /** A request for something returns 0 exactly when nothing is buffered, the network ends, and
      no compressed input is left. */
  lemma {:induction false} ZeroIsTheEnd(requests: seq<nat>, feed: seq<Inflation>, k: nat)
    requires k < |requests| && requests[k] > 0
    ensures var s := AfterReads(requests[..k], feed);
            ResultAt(requests, feed, k) == 0 <==>
              && s.reader.buffered == [] && s.used < |feed|
              && !feed[s.used].NetError? && feed[s.used].n == 0 && s.reader.availIn == 0
  {
  }

  /** The network brings nothing from the i-th read on. */
  predicate QuietFrom(feed: seq<Inflation>, i: nat) {
    forall j :: i <= j < |feed| ==> feed[j].NetError? || feed[j].n == 0
  }

  lemma {:induction false} QuietMakesNothing(feed: seq<Inflation>, i: nat)
    requires i <= |feed| && QuietFrom(feed, i) && Makes(feed[..i]).availIn == 0
    ensures Makes(feed) == Makes(feed[..i])
    decreases |feed|
  {
    if i == |feed| {
      assert feed[..i] == feed;
    } else {
      var k := |feed| - 1;
      assert feed[..k][..i] == feed[..i];
      QuietMakesNothing(feed[..k], i);
    }
  }

  /** A caller who reads until the first 0 has been handed everything inflate made of the feed,
      as a network that has ended stays quiet. */
  lemma {:induction false} ReadUntilZero(requests: seq<nat>, feed: seq<Inflation>, k: nat)
    requires k < |requests| && requests[k] > 0 && ResultAt(requests, feed, k) == 0
    requires QuietFrom(feed, AfterReads(requests[..k], feed).used)
    ensures AfterReads(requests[..k], feed).given == Makes(feed).bytes
  {
    hide AfterReads;
    var s := AfterReads(requests[..k], feed);
    NothingInflatedIsLost(requests[..k], feed);
    ZeroIsTheEnd(requests, feed, k);
    QuietMakesNothing(feed, s.used);
  }

  // ----- Writing -----

  /** One write to the socket. */
  datatype SocketWrite = Busy | Broken | Takes(n: nat)

  /** How many of len bytes a socket takes before it first breaks. */
  function Delivered(schedule: seq<SocketWrite>, len: nat): (k: nat)
    ensures k <= len
    decreases |schedule|
  {
    if len == 0 then 0
    else if schedule == [] then len
    else
      match schedule[0]
      case Busy => Delivered(schedule[1..], len)
      case Broken => 0
      case Takes(n) => var k := if n > len then len else n; k + Delivered(schedule[1..], len - k)
  }

  lemma {:induction false} WithoutBreaksAllIsDelivered(schedule: seq<SocketWrite>, len: nat)
    requires Broken !in schedule
    ensures Delivered(schedule, len) == len
    decreases |schedule|
  {
    if len > 0 && schedule != [] {
      var k := match schedule[0] case Takes(n) => (if n > len then len else n) case _ => 0;
      WithoutBreaksAllIsDelivered(schedule[1..], len - k);
    }
  }

  class Writer {
    const zbuf: array<Byte>
    var availOut: nat
    var rawOut: int
    var sent: seq<Byte>

    ghost predicate Valid()
      reads this
    {
      availOut <= zbuf.Length
    }

    /** The bytes between the start of the buffer and next_out. */
    function Pending(): seq<Byte>
      requires Valid()
      reads this, zbuf
    {
      zbuf[..zbuf.Length - availOut]
    }

    constructor (size: nat)
      requires size > 0
      ensures Valid() && fresh(zbuf) && zbuf.Length == size
      ensures Pending() == [] && sent == [] && rawOut == 0
    {
      zbuf := new Byte[size](_ => 0);
      availOut, rawOut, sent := size, 0, [];
    }

    /** deflate appends its output at next_out. */
    method Append(out: seq<Byte>)
      requires Valid() && |out| <= availOut
      modifies this`availOut, zbuf
      ensures Valid() && Pending() == old(Pending()) + out
    {
      var at := zbuf.Length - availOut;
      forall i | 0 <= i < |out| {
        zbuf[at + i] := out[i];
      }
      availOut := availOut - |out|;
      assert zbuf[..at + |out|] == old(zbuf[..at]) + out;
    }

    /** The drain loop shared by deflate_netio_write_cb and deflate_netio_shutdown_cb: sends the
        buffer from its start, through busy and short writes, until all of it has gone or the
        socket breaks. */
    method Drain(schedule: seq<SocketWrite>) returns (ok: bool)
      requires Valid()
      modifies this`sent, this`rawOut
      ensures var k := Delivered(schedule, |Pending()|);
              && sent == old(sent) + Pending()[..k]
              && rawOut == old(rawOut) + k
              && (ok <==> k == |Pending()|)
    {
      var datalen := zbuf.Length - availOut;
      var offset := 0;
      var t := 0;
      ghost var all := Pending();
      assert all[..0] == [] && schedule[0..] == schedule;
      while datalen > 0
        invariant 0 <= offset && 0 <= datalen && offset + datalen == |all| && t <= |schedule|
        invariant sent == old(sent) + all[..offset] && rawOut == old(rawOut) + offset
        invariant Delivered(schedule, |all|) == offset + Delivered(schedule[t..], datalen)
        decreases |schedule| - t, datalen
      {
        var w := Takes(datalen);
        if t < |schedule| {
          assert schedule[t..][1..] == schedule[t + 1..];
          w := schedule[t];
          t := t + 1;
        }
        match w {
          case Busy =>
            continue;
          case Broken =>
            return false;
          case Takes(n) =>
            var k := if n > datalen then datalen else n;
            assert all[..offset + k] == all[..offset] + zbuf[offset..offset + k];
            sent := sent + zbuf[offset..offset + k];
            rawOut := rawOut + k;
            offset := offset + k;
            datalen := datalen - k;
        }
      }
      return true;
    }

    /** deflate_netio_write_cb, deflate having consumed some of the caller's bytes and produced
        out: on success everything in the buffer has been sent once and the buffer is reset;
        when the socket breaks, the buffer keeps all of it. */
    method Write(consumed: nat, out: seq<Byte>, schedule: seq<SocketWrite>) returns (res: int)
      requires Valid() && |out| <= availOut
      modifies this, zbuf
      ensures Valid()
      ensures var all := old(Pending()) + out;
              var k := Delivered(schedule, |all|);
              && sent == old(sent) + all[..k]
              && Pending() == (if k == |all| then [] else all)
              && res == (if k == |all| then consumed else -1)
              && rawOut == old(rawOut) + k - (if k == |all| then consumed else 0)
    {
      Append(out);
      var ok := Drain(schedule);
      if !ok {
        return -1;
      }
      availOut := zbuf.Length;
      rawOut := rawOut - consumed;
      return consumed;
    }
  }

  // ----- Runs of writes -----

  /** What happens to a caller's write: it starts; the loop in pr_netio_write calls the write
      callback; the transfer is aborted between poll and call, so that the result of the turn
      before is taken again; or a failed poll or deflate, which sends nothing, gives it up. */
  datatype Turn =
    | Starts(buflen: nat)
    | Calls(consumed: nat, out: seq<Byte>, schedule: seq<SocketWrite>)
    | Aborts
    | Abandons

  /** The end of the stream: the shutdown callback drains what deflate held back, unless
      deflate fails. */
  datatype Finish = Finishes(out: seq<Byte>, schedule: seq<SocketWrite>) | FinishFails

  /** The variables of pr_netio_write: results summed but not yet added to the counter, the
      last result, and how many of the caller's bytes are left. */
  datatype Progress = Progress(owed: nat, prev: nat, left: nat)

  const IDLE := Progress(0, 0, 0)
  const SIZE_LIMIT: nat := 0x1_0000_0000_0000_0000

  /** A result is counted; the bytes left are an unsigned long. */
  function Counted(p: Progress, n: nat): Progress {
    Progress(p.owed + n, n, if n <= p.left then p.left - n else (p.left - n) % SIZE_LIMIT)
  }

  /** A run in progress: the buffer, what the socket has taken, the counter, and the caller's
      write. */
  datatype WriteRun = WriteRun(pending: seq<Byte>, sent: seq<Byte>, raw: int, write: Progress)

  const STARTED := WriteRun([], [], 0, IDLE)

  /** A write with no bytes left is over: what it summed is added to the counter. */
  function Settled(s: WriteRun): WriteRun {
    if s.write.left == 0 then s.(raw := s.raw + s.write.owed, write := IDLE) else s
  }

  function TurnStep(s: WriteRun, t: Turn): WriteRun {
    match t
    case Starts(buflen) => s.(write := Progress(0, 0, buflen))
    case Abandons => s.(write := IDLE)
    case Aborts => Settled(s.(write := Counted(s.write, s.write.prev)))
    case Calls(consumed, out, schedule) =>
      var all := s.pending + out;
      var k := Delivered(schedule, |all|);
      if k < |all| then WriteRun(all, s.sent + all[..k], s.raw + k, IDLE)
      else Settled(WriteRun([], s.sent + all, s.raw + k - consumed, Counted(s.write, consumed)))
  }

  function AfterTurns(turns: seq<Turn>): WriteRun
    decreases |turns|
  {
    if turns == [] then STARTED else TurnStep(AfterTurns(turns[..|turns| - 1]), turns[|turns| - 1])
  }

  function FinishStep(s: WriteRun, f: Finish): WriteRun {
    match f
    case FinishFails => s
    case Finishes(out, schedule) =>
      var all := s.pending + out;
      var k := Delivered(schedule, |all|);
      s.(pending := all, sent := s.sent + all[..k], raw := s.raw + k)
  }

  /** All that deflate produced. */
  function Deflated(turns: seq<Turn>): seq<Byte>
    decreases |turns|
  {
    if turns == [] then []
    else Deflated(turns[..|turns| - 1]) + if turns[|turns| - 1].Calls? then turns[|turns| - 1].out else []
  }

  /** deflate is given only the room left in the buffer. */
  ghost predicate Fits(size: nat, turns: seq<Turn>, f: Finish) {
    && (forall i :: 0 <= i < |turns| && turns[i].Calls? ==>
          |AfterTurns(turns[..i]).pending| + |turns[i].out| <= size)
    && (f.Finishes? ==> |AfterTurns(turns).pending| + |f.out| <= size)
  }

  /** One turn of a caller's write. */
  method TakeTurn(w: Writer, p: Progress, t: Turn) returns (p': Progress)
    requires w.Valid() && (t.Calls? ==> |t.out| <= w.availOut)
    modifies w, w.zbuf
    ensures w.Valid()
    ensures WriteRun(w.Pending(), w.sent, w.rawOut, p')
         == TurnStep(old(WriteRun(w.Pending(), w.sent, w.rawOut, p)), t)
  {
    hide Delivered, Counted;
    match t {
      case Starts(buflen) =>
        return Progress(0, 0, buflen);
      case Abandons =>
        return IDLE;
      case Aborts =>
        p' := Counted(p, p.prev);
      case Calls(consumed, out, schedule) =>
        ghost var all := w.Pending() + out;
        assert all[..|all|] == all;
        var res := w.Write(consumed, out, schedule);
        if res < 0 {
          return IDLE;
        }
        p' := Counted(p, res);
    }
    if p'.left == 0 {
      w.rawOut := w.rawOut + p'.owed;
      p' := IDLE;
    }
  }

  /** The writer sends and counts as specified through any run, broken sockets included. */
  method RunWrites(size: nat, turns: seq<Turn>, f: Finish) returns (w: Writer)
    requires size > 0 && Fits(size, turns, f)
    ensures var s := FinishStep(AfterTurns(turns), f);
            w.Valid() && w.Pending() == s.pending && w.sent == s.sent && w.rawOut == s.raw
  {
    hide Delivered, TurnStep;
    w := new Writer(size);
    var p := IDLE;
    for i := 0 to |turns|
      invariant fresh(w) && fresh(w.zbuf) && w.Valid() && w.zbuf.Length == size
      invariant WriteRun(w.Pending(), w.sent, w.rawOut, p) == AfterTurns(turns[..i])
    {
      assert turns[..i + 1][..i] == turns[..i];
      p := TakeTurn(w, p, turns[i]);
    }
    assert turns[..|turns|] == turns;
    if f.Finishes? {
      w.Append(f.out);
      var _ := w.Drain(f.schedule);
    }
  }

  /** The i-th turn broke off after the socket had taken some of the buffer. */
  predicate BrokeMidway(turns: seq<Turn>, i: nat)
    requires i < |turns|
  {
    && turns[i].Calls?
    && var len := |AfterTurns(turns[..i]).pending| + |turns[i].out|;
       0 < Delivered(turns[i].schedule, len) < len
  }

  /** Bytes that went out from turns that broke off, and so go out again. */
  function Repeated(turns: seq<Turn>): nat
    decreases |turns|
  {
    if turns == [] then 0 else
      var k := |turns| - 1;
      var s := AfterTurns(turns[..k]);
      Repeated(turns[..k]) +
      if BrokeMidway(turns, k) then Delivered(turns[k].schedule, |s.pending| + |turns[k].out|) else 0
  }

  lemma {:induction false} SentLength(turns: seq<Turn>)
    ensures var s := AfterTurns(turns); |s.sent| + |s.pending| == |Deflated(turns)| + Repeated(turns)
    decreases |turns|
  {
    hide Delivered;
    if turns != [] {
      SentLength(turns[..|turns| - 1]);
    }
  }

  lemma {:induction false} RepeatedIsZero(turns: seq<Turn>)
    ensures Repeated(turns) == 0 <==> forall i :: 0 <= i < |turns| ==> !BrokeMidway(turns, i)
    decreases |turns|
  {
    hide Delivered, AfterTurns;
    if turns != [] {
      var k := |turns| - 1;
      RepeatedIsZero(turns[..k]);
      assert forall i :: 0 <= i < k ==> turns[..k][..i] == turns[..i];
      assert forall i :: 0 <= i < k ==> BrokeMidway(turns[..k], i) == BrokeMidway(turns, i);
    }
  }

  /** A turn that sends all of the buffer or none of it keeps the bytes in order. */
  lemma TurnKeepsOrder(s: WriteRun, t: Turn)
    requires t.Calls? ==>
      var len := |s.pending| + |t.out|; Delivered(t.schedule, len) == 0 || Delivered(t.schedule, len) == len
    ensures var s' := TurnStep(s, t);
            s'.sent + s'.pending == s.sent + s.pending + if t.Calls? then t.out else []
  {
    hide Delivered, Counted;
    if t.Calls? {
      var all := s.pending + t.out;
      assert all[..0] == [];
      assert s.sent + all == s.sent + s.pending + t.out;
    }
  }

  lemma {:induction false} SentInOrder(turns: seq<Turn>)
    requires Repeated(turns) == 0
    ensures var s := AfterTurns(turns); s.sent + s.pending == Deflated(turns)
    decreases |turns|
  {
    hide Delivered, TurnStep;
    if turns != [] {
      var k := |turns| - 1;
      SentInOrder(turns[..k]);
      TurnKeepsOrder(AfterTurns(turns[..k]), turns[k]);
    }
  }

  /** Over any run, what the socket has taken followed by what is still in the buffer is what
      deflate produced, if and only if no turn broke off after sending part of the buffer. */
  lemma {:induction false} StreamIsExact(turns: seq<Turn>)
    ensures var s := AfterTurns(turns);
            s.sent + s.pending == Deflated(turns) <==> forall i :: 0 <= i < |turns| ==> !BrokeMidway(turns, i)
  {
    RepeatedIsZero(turns);
    SentLength(turns);
    if Repeated(turns) == 0 {
      SentInOrder(turns);
    }
  }

  /** With the shutdown drained to its end, the peer has exactly the deflated stream under the
      same condition. */
  lemma {:induction false} WholeStreamIsExact(turns: seq<Turn>, f: Finish)
    requires f.Finishes? && var len := |AfterTurns(turns).pending| + |f.out|; Delivered(f.schedule, len) == len
    ensures FinishStep(AfterTurns(turns), f).sent == Deflated(turns) + f.out
       <==> forall i :: 0 <= i < |turns| ==> !BrokeMidway(turns, i)
  {
    hide Delivered;
    StreamIsExact(turns);
    SentLength(turns);
    RepeatedIsZero(turns);
    var s := AfterTurns(turns);
    var all := s.pending + f.out;
    assert all[..|all|] == all;
    assert s.sent + all == (s.sent + s.pending) + f.out;
  }

  /** After a break the buffer goes out again from its start: the peer sees the part that got
      through, and then all of it. */
  lemma {:induction false} ResentFromStart(turns: seq<Turn>, first: Turn, second: Turn)
    requires first.Calls? && second.Calls? && AfterTurns(turns).pending == []
    requires Delivered(first.schedule, |first.out|) < |first.out|
    requires Broken !in second.schedule
    ensures AfterTurns(turns + [first, second]).sent
         == AfterTurns(turns).sent + first.out[..Delivered(first.schedule, |first.out|)] + first.out + second.out
  {
    hide Delivered;
    var all := turns + [first, second];
    assert all[..|turns| + 1][..|turns|] == turns;
    assert all[..|turns| + 1] == turns + [first];
    assert [] + first.out == first.out;
    WithoutBreaksAllIsDelivered(second.schedule, |first.out + second.out|);
  }

  /** Two bytes of which the socket takes one and breaks arrive as three. */
  lemma {:induction false} ByteArrivesTwice()
    ensures AfterTurns([Starts(4), Calls(2, [1, 2], [Takes(1), Broken]), Calls(2, [], [])]).sent == [1, 1, 2]
  {
    var first, second := Calls(2, [1, 2], [Takes(1), Broken]), Calls(2, [], []);
    assert Delivered(first.schedule, 2) == 1 by {
      assert first.schedule[1..] == [Broken];
    }
    assert [Starts(4)][..0] == [];
    ResentFromStart([Starts(4)], first, second);
    assert [Starts(4)] + [first, second] == [Starts(4), first, second];
  }

  /** The caller's write ends with the i-th turn, without success. */
  predicate GivenUp(turns: seq<Turn>, i: nat)
    requires i < |turns|
  {
    match turns[i]
    case Starts(_) => true
    case Abandons => true
    case Aborts => false
    case Calls(_, out, schedule) =>
      var len := |AfterTurns(turns[..i]).pending| + |out|;
      Delivered(schedule, len) < len
  }

  /** Results summed by writes that were then given up. */
  function Dropped(turns: seq<Turn>): nat
    decreases |turns|
  {
    if turns == [] then 0 else
      var k := |turns| - 1;
      Dropped(turns[..k]) + if GivenUp(turns, k) then AfterTurns(turns[..k]).write.owed else 0
  }

  /** Results that aborted turns take again. */
  function TakenAgain(turns: seq<Turn>): nat
    decreases |turns|
  {
    if turns == [] then 0 else
      var k := |turns| - 1;
      TakenAgain(turns[..k]) + if turns[k].Aborts? then AfterTurns(turns[..k]).write.prev else 0
  }

  lemma OwedAfter(p: Progress)
    ensures forall n: nat :: Counted(p, n).owed == p.owed + n
  {
  }

  /** The raw counter, with what is still to be added, differs from the bytes sent by exactly the
      results of writes that were given up, which it misses, and those that aborted turns take
      again, which it has too much. */
  lemma {:induction false} CounterIsExact(turns: seq<Turn>)
    ensures var s := AfterTurns(turns);
            && s.raw + s.write.owed + Dropped(turns) == |s.sent| + TakenAgain(turns)
            && (s.raw + s.write.owed == |s.sent| <==> Dropped(turns) == TakenAgain(turns))
    decreases |turns|
  {
    hide Delivered, Counted;
    if turns != [] {
      CounterIsExact(turns[..|turns| - 1]);
      OwedAfter(AfterTurns(turns[..|turns| - 1]).write);
    }
  }

  /** More bytes taken again than are left: the number left wraps around and the write goes on. */
  lemma AbortWrapsAround(s: WriteRun)
    requires s.write.left < s.write.prev <= 0x7fff_ffff
    ensures TurnStep(s, Aborts).write.left == s.write.left - s.write.prev + 0x1_0000_0000_0000_0000
    ensures TurnStep(s, Aborts).write.owed == s.write.owed + s.write.prev && TurnStep(s, Aborts).raw == s.raw
  {
  }

  /** The shutdown adds to the counter exactly what it sends. */
  lemma FinishCounts(s: WriteRun, f: Finish)
    ensures FinishStep(s, f).raw - s.raw == |FinishStep(s, f).sent| - |s.sent|
    ensures FinishStep(s, f).write == s.write
  {
    hide Delivered;
  }

  /** A write that deflate and the socket take whole is over after one turn, counted exactly. */
  lemma {:induction false} WholeWriteCompletes(buflen: nat, out: seq<Byte>, schedule: seq<SocketWrite>)
    requires Broken !in schedule
    ensures AfterTurns([Starts(buflen), Calls(buflen, out, schedule)]) == WriteRun([], out, |out|, Progress(0, 0, 0))
  {
    hide Delivered;
    WithoutBreaksAllIsDelivered(schedule, |out|);
    OneMoreTurn([], Starts(buflen));
    OneMoreTurn([Starts(buflen)], Calls(buflen, out, schedule));
    assert [] + [Starts(buflen)] == [Starts(buflen)];
    assert [Starts(buflen)] + [Calls(buflen, out, schedule)] == [Starts(buflen), Calls(buflen, out, schedule)];
    assert [] + out == out;
  }

  lemma OneMoreTurn(turns: seq<Turn>, t: Turn)
    ensures AfterTurns(turns + [t]) == TurnStep(AfterTurns(turns), t)
  {
    assert (turns + [t])[..|turns|] == turns;
  }

  /** The first turn of a write, which the socket takes whole but which leaves bytes over. */
  lemma FirstTurn(buflen: nat, consumed: nat, out: seq<Byte>)
    requires consumed < buflen
    ensures AfterTurns([Starts(buflen), Calls(consumed, out, [])])
         == WriteRun([], out, |out| - consumed, Progress(consumed, consumed, buflen - consumed))
  {
    OneMoreTurn([], Starts(buflen));
    OneMoreTurn([Starts(buflen)], Calls(consumed, out, []));
    assert [] + [Starts(buflen)] == [Starts(buflen)];
    assert [Starts(buflen)] + [Calls(consumed, out, [])] == [Starts(buflen), Calls(consumed, out, [])];
    assert [] + out == out;
  }

  /** A write that is given up after its first turn leaves the counter short by what that turn
      consumed. */
  lemma {:induction false} CounterFallsShort(buflen: nat, consumed: nat, out: seq<Byte>)
    requires consumed < buflen
    ensures AfterTurns([Starts(buflen), Calls(consumed, out, []), Abandons])
         == WriteRun([], out, |out| - consumed, Progress(0, 0, 0))
  {
    hide TurnStep, AfterTurns;
    var turns := [Starts(buflen), Calls(consumed, out, [])];
    FirstTurn(buflen, consumed, out);
    OneMoreTurn(turns, Abandons);
    assert turns + [Abandons] == [Starts(buflen), Calls(consumed, out, []), Abandons];
    assert TurnStep(AfterTurns(turns), Abandons) == AfterTurns(turns).(write := IDLE) by {
      AbandonsEnds(AfterTurns(turns));
    }
  }

  lemma AbandonsEnds(s: WriteRun)
    ensures TurnStep(s, Abandons) == s.(write := IDLE)
  {
  }

  /** A write that is aborted half-way ends as a success: the counter has too much by what the
      first turn consumed, and the second half of the caller's bytes never reached deflate. */
  lemma {:induction false} CounterExceeds(half: nat, out: seq<Byte>)
    requires half > 0
    ensures AfterTurns([Starts(2 * half), Calls(half, out, []), Aborts])
         == WriteRun([], out, |out| + half, Progress(0, 0, 0))
  {
    hide AfterTurns, Delivered;
    var turns := [Starts(2 * half), Calls(half, out, [])];
    FirstTurn(2 * half, half, out);
    OneMoreTurn(turns, Aborts);
    assert turns + [Aborts] == [Starts(2 * half), Calls(half, out, []), Aborts];
  }
}
