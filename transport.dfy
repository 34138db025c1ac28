/** The serial side of the importer (NavRunCom): sending a telegram and reading
    the reply, requesting one memory block, and dumping the device memory page
    by page. The serial port is modelled by what it delivers and what it was
    given: a queue of read events and a log of written frames. */
module Transport {
  import opened Common
  import opened Telegram
  import opened Header

  const TelReadVersion: byte := 0x10
  const TelReadMemory: byte := 0x12

  /** Bytes per memory block, and blocks per 4096-byte page. */
  const BlockSize := 0x80
  const BlocksPerPage := 32

  /** An open serial port. Reads take the next event from `incoming`; once it is
      exhausted every read times out. Every write is appended to `written`. */
  class SerialLink {
    var incoming: seq<ReadEvent>
    var written: seq<seq<byte>>

    constructor (incoming: seq<ReadEvent>)
      ensures this.incoming == incoming && written == []
    {
      this.incoming := incoming;
      written := [];
    }

    method Write(frame: seq<byte>)
      modifies this
      ensures incoming == old(incoming) && written == old(written) + [frame]
    {
      written := written + [frame];
    }

    method ReadByte() returns (e: ReadEvent)
      modifies this
      ensures written == old(written)
      ensures old(incoming) == [] ==> e == Timeout && incoming == []
      ensures old(incoming) != [] ==> e == old(incoming)[0] && incoming == old(incoming)[1..]
    {
      if incoming == [] {
        e := Timeout;
      } else {
        e := incoming[0];
        incoming := incoming[1..];
      }
    }
  }

  /** n writes of the same frame. */
  function Copies(f: seq<byte>, n: nat): (r: seq<seq<byte>>)
    ensures |r| == n && forall k :: 0 <= k < n ==> r[k] == f
  {
    seq(n, _ => f)
  }

  /** The read-memory request: command 0x12, the address as three little-endian
      bytes, and the byte count. The address is recovered from the request
      whenever it fits in 24 bits. */
  function ReadMemoryRequest(addr: nat, size: byte): (p: seq<byte>)
    requires addr < 0x1_0000_0000
    ensures |p| == 5 && p[0] == TelReadMemory && p[4] == size
    ensures addr < 0x100_0000 ==> p[1] as int + 0x100 * p[2] as int + 0x1_0000 * p[3] as int == addr
  {
    [TelReadMemory, addr % 0x100, (addr / 0x100) % 0x100, (addr / 0x1_0000) % 0x100, size]
  }

  // ---------------------------------------------------------------------
  // The memory dump, described by the block requests it made
  // ---------------------------------------------------------------------

  /** One block request of the dump: the address asked for and the reply. */
  datatype Block = Block(addr: nat, reply: Option<seq<byte>>)

  /** A block reply is usable when it is present and holds the status byte
      plus 128 data bytes. */
  predicate BlockOk(b: Block)
  {
    b.reply.Some? && |b.reply.value| >= BlockSize + 1
  }

  predicate AllOk(log: seq<Block>)
  {
    forall k :: 0 <= k < |log| ==> BlockOk(log[k])
  }

  /** The requests ask for consecutive blocks from address `from` on. */
  predicate Consecutive(log: seq<Block>, from: nat)
    decreases |log|
  {
    log == [] || (Consecutive(log[..|log| - 1], from) && log[|log| - 1].addr == from + BlockSize * (|log| - 1))
  }

  /** Request k asks for the k-th block from `from`. */
  lemma {:induction false} ConsecutiveAt(log: seq<Block>, from: nat, k: nat)
    requires Consecutive(log, from) && k < |log|
    ensures log[k].addr == from + BlockSize * k
    decreases |log|
  {
    if k < |log| - 1 {
      ConsecutiveAt(log[..|log| - 1], from, k);
    }
  }

  /** The memory image the replies make: each reply's 128 data bytes, its
      status byte dropped, in request order. */
  function Image(log: seq<Block>): (m: seq<byte>)
    requires AllOk(log)
    ensures |m| == BlockSize * |log|
  {
    if log == [] then []
    else Image(log[..|log| - 1]) + log[|log| - 1].reply.value[1..BlockSize + 1]
  }

  lemma ImageAppend(log: seq<Block>, b: Block)
    requires AllOk(log) && BlockOk(b)
    ensures AllOk(log + [b])
    ensures Image(log + [b]) == Image(log) + b.reply.value[1..BlockSize + 1]
  {
    assert (log + [b])[..|log|] == log;
  }

  lemma AllOkConcat(a: seq<Block>, b: seq<Block>)
    requires AllOk(a) && AllOk(b)
    ensures AllOk(a + b)
  {
  }

  lemma ConsecutiveAppend(a: seq<Block>, from: nat, b: Block)
    requires Consecutive(a, from) && b.addr == from + BlockSize * |a|
    ensures Consecutive(a + [b], from)
  {
    assert (a + [b])[..|a|] == a;
  }

  lemma {:induction false} ConsecutiveConcat(a: seq<Block>, b: seq<Block>, from: nat)
    requires Consecutive(a, from) && Consecutive(b, from + BlockSize * |a|)
    ensures Consecutive(a + b, from)
    decreases |b|
  {
    if b == [] {
      assert a + b == a;
    } else {
      var n := |b| - 1;
      ConsecutiveConcat(a, b[..n], from);
      assert (a + b)[..|a + b| - 1] == a + b[..n];
    }
  }

  lemma {:induction false} ImageConcat(a: seq<Block>, b: seq<Block>)
    requires AllOk(a) && AllOk(b)
    ensures AllOk(a + b) && Image(a + b) == Image(a) + Image(b)
    decreases |b|
  {
    if b != [] {
      var n := |b| - 1;
      assert (a + b)[..|a + b| - 1] == a + b[..n];
      ImageConcat(a, b[..n]);
    } else {
      assert a + b == a;
    }
  }

  /** The image is the memory in address order: in a dump of consecutive
      blocks from address 0, image byte a is data byte a % 128 of the reply to
      the request for address a - a % 128. */
  lemma {:induction false} ImageAt(log: seq<Block>, a: nat)
    requires AllOk(log) && Consecutive(log, 0) && a < BlockSize * |log|
    ensures log[a / BlockSize].addr == a - a % BlockSize
    ensures Image(log)[a] == log[a / BlockSize].reply.value[1 + a % BlockSize]
  {
    ConsecutiveAt(log, 0, a / BlockSize);
    var n := |log| - 1;
    if a < BlockSize * n {
      ImageAt(log[..n], a);
    }
  }

  lemma LogAppend(log: seq<Block>, a: seq<Block>, b: seq<Block>)
    ensures log + a + b == log + (a + b)
  {
  }

  /** One more usable block read: the facts a page read keeps. */
  lemma BlockGrow(page: seq<Block>, from: nat, b: Block, base: seq<byte>, next: seq<byte>)
    requires Consecutive(page, from) && AllOk(page) && next == base + Image(page)
    requires b.addr == from + BlockSize * |page| && BlockOk(b)
    ensures Consecutive(page + [b], from) && AllOk(page + [b])
    ensures next + b.reply.value[1..BlockSize + 1] == base + Image(page + [b])
  {
    ConsecutiveAppend(page, from, b);
    ImageAppend(page, b);
  }

  /** One more page read: the facts the page loop keeps. */
  lemma PageGrow(pages: seq<Block>, page: seq<Block>, from: nat, base: seq<byte>, prev: seq<byte>, next: seq<byte>)
    requires Consecutive(pages, from) && AllOk(pages) && prev == base + Image(pages)
    requires Consecutive(page, from + BlockSize * |pages|) && AllOk(page) && next == prev + Image(page)
    ensures Consecutive(pages + page, from) && AllOk(pages + page)
    ensures next == base + Image(pages + page)
  {
    ConsecutiveConcat(pages, page, from);
    ImageConcat(pages, page);
  }

  /** A read of blocks that stopped at its first unusable reply. */
  predicate Stopped(log: seq<Block>)
  {
    |log| >= 1 && AllOk(log[..|log| - 1]) && !BlockOk(log[|log| - 1])
  }

  lemma StoppedAfter(a: seq<Block>, b: seq<Block>)
    requires AllOk(a) && Stopped(b)
    ensures Stopped(a + b)
  {
    AllOkConcat(a, b[..|b| - 1]);
    assert (a + b)[..|a + b| - 1] == a + b[..|b| - 1];
  }

  /** The requests stay within the header page or, once a usable header page
      names its last page, within pages 0 to that page: no body block is
      requested before the header scan has succeeded. */
  ghost predicate WithinDump(R: seq<Block>)
  {
    || |R| <= BlocksPerPage
    || (&& AllOk(R[..BlocksPerPage])
        && MaxPage(Image(R[..BlocksPerPage])).Returned?
        && |R| <= BlocksPerPage * (1 + MaxPage(Image(R[..BlocksPerPage])).value))
  }

  /** What ReadData's outcome says about the requests R it made: consecutive
      blocks from address 0 within the dump's pages, each reply but the last
      usable; null exactly when the last was not; a raise only from the header
      scan of a complete header page; and on success the image of all replies,
      whose header names the last page read. */
  ghost predicate DumpResult(R: seq<Block>, r: Outcome<Option<seq<byte>>>)
  {
    && |R| >= 1 && Consecutive(R, 0) && AllOk(R[..|R| - 1]) && WithinDump(R)
    && (r == Returned(None) <==> !BlockOk(R[|R| - 1]))
    && (r.Threw? ==> |R| == BlocksPerPage && AllOk(R) && MaxPage(Image(R)).Threw?)
    && (r.Returned? && r.value.Some? ==>
          && AllOk(R) && |R| >= BlocksPerPage
          && MaxPage(Image(R[..BlocksPerPage])).Returned?
          && |R| == BlocksPerPage * (1 + MaxPage(Image(R[..BlocksPerPage])).value)
          && r.value.value == Image(R)
          && |r.value.value| == PageSize * (1 + MaxPage(Image(R[..BlocksPerPage])).value))
  }

  /** A request beyond the header page means the header page was read whole
      and its scan returned a last page that covers the request. */
  lemma DumpBodyNeedsHeader(R: seq<Block>, r: Outcome<Option<seq<byte>>>)
    requires DumpResult(R, r) && |R| > BlocksPerPage
    ensures AllOk(R[..BlocksPerPage]) && MaxPage(Image(R[..BlocksPerPage])).Returned?
    ensures (|R| - 1) / BlocksPerPage <= MaxPage(Image(R[..BlocksPerPage])).value
  {
  }

  lemma DumpStopped(R: seq<Block>)
    requires Consecutive(R, 0) && Stopped(R) && WithinDump(R)
    ensures DumpResult(R, Returned(None))
  {
  }

  lemma DumpHeaderRaised(P: seq<Block>, e: Exception)
    requires Consecutive(P, 0) && |P| == BlocksPerPage && AllOk(P) && MaxPage(Image(P)).Threw?
    ensures DumpResult(P, Threw(e))
  {
    assert P[..|P| - 1] == P[..BlocksPerPage - 1];
  }

  lemma DumpComplete(P: seq<Block>, Q: seq<Block>)
    requires Consecutive(P + Q, 0)
    requires |P| == BlocksPerPage && AllOk(P) && MaxPage(Image(P)).Returned?
    requires |Q| == BlocksPerPage * MaxPage(Image(P)).value && AllOk(Q)
    ensures DumpResult(P + Q, Returned(Some(Image(P) + Image(Q))))
  {
    ImageConcat(P, Q);
    assert (P + Q)[..BlocksPerPage] == P;
    var R := P + Q;
    assert AllOk(R[..|R| - 1]);
  }

  class NavRunCom {
    /** The port an earlier discovery opened, or null. */
    var port: SerialLink?
    /** Every block request made so far, in order. */
    ghost var log: seq<Block>

    constructor (link: SerialLink?)
      ensures port == link && log == []
    {
      port := link;
      log := [];
    }

    /** The checksum of the payload: the sum of its bytes modulo 2^16. */
    static method ComputeChecksum(data: seq<byte>) returns (checksum: int)
      ensures checksum == Checksum(data)
    {
      checksum := 0;
      var i := 0;
      while i < |data|
        invariant 0 <= i <= |data|
        invariant checksum == Sum(data[..i]) % 0x1_0000
      {
        SumAppend(data[..i], data[i]);
        assert data[..i + 1] == data[..i] + [data[i]];
        checksum := (checksum + data[i]) % 0x1_0000;
        i := i + 1;
      }
      assert data[..i] == data;
    }

    /** Lays out the telegram for data and a checksum in a fresh buffer. */
    static method BuildFrame(data: seq<byte>, checksum: int) returns (sendbuf: array<byte>)
      requires |data| <= MaxPayload && 0 <= checksum < 0x1_0000
      ensures fresh(sendbuf) && sendbuf[..] == Framed(data, checksum)
    {
      var n := |data|;
      ghost var head: seq<byte> := [TelStart1, TelStart2, n / 0x100, n % 0x100];
      ghost var tail: seq<byte> := [checksum / 0x100, checksum % 0x100, TelEnd1, TelEnd2];
      sendbuf := new byte[n + 8];
      sendbuf[0], sendbuf[1], sendbuf[2], sendbuf[3] := TelStart1, TelStart2, n / 0x100, n % 0x100;
      var i := 0;
      while i < n
        invariant 0 <= i <= n
        invariant sendbuf[..4] == head && sendbuf[4..4 + i] == data[..i]
      {
        sendbuf[4 + i] := data[i];
        assert sendbuf[4..4 + i + 1] == sendbuf[4..4 + i] + [data[i]];
        assert data[..i + 1] == data[..i] + [data[i]];
        i := i + 1;
      }
      ghost var body := sendbuf[..n + 4];
      assert body == head + data by {
        assert body == sendbuf[..4] + sendbuf[4..n + 4];
      }
      sendbuf[n + 4], sendbuf[n + 5], sendbuf[n + 6], sendbuf[n + 7] := checksum / 0x100, checksum % 0x100, TelEnd1, TelEnd2;
      assert sendbuf[..n + 4] == body;
      assert sendbuf[n + 4..] == tail;
      assert sendbuf[..] == sendbuf[..n + 4] + sendbuf[n + 4..];
    }

    /** Reads the reply to one send: feeds every byte to the receiver until the
        end of a telegram is seen, forgiving one timeout as long as the retry
        flag is clear and giving up at the next. */
    static method ReceiveReply(port: SerialLink, rx: Rx, retried: bool) returns (bFertig: bool, rx': Rx, bRetry: bool)
      modifies port
      ensures port.written == old(port.written)
      ensures Receive(old(port.incoming), retried, rx) == Attempt(bFertig, rx', port.incoming, bRetry)
    {
      ghost var a := Receive(port.incoming, retried, rx);
      var state, usDataSize, usChecksum, usRxChecksum, bytelist := rx.state, rx.size, rx.chk, rx.rxChk, rx.payload;
      bRetry := retried;
      bFertig := false;
      while !bFertig
        modifies port
        invariant port.written == old(port.written)
        invariant !bFertig ==> Receive(port.incoming, bRetry, Rx(state, usDataSize, usChecksum, usRxChecksum, bytelist)) == a
        invariant bFertig ==> a == Attempt(true, Rx(state, usDataSize, usChecksum, usRxChecksum, bytelist), port.incoming, bRetry)
        decreases |port.incoming|, if bRetry then 0 else 1
      {
        ghost var cur := Rx(state, usDataSize, usChecksum, usRxChecksum, bytelist);
        var ev := port.ReadByte();
        var b: int;
        if ev.Timeout? {
          if !bRetry {
            bRetry := true;
            continue;
          }
          b := -1;
        } else {
          b := ev.value;
        }
        if b <= -1 {
          assert a == Attempt(false, cur, port.incoming, bRetry);
          break;
        }
        var x: byte := b;
        assert Completes(cur, x) ==> a == Attempt(true, Step(cur, x), port.incoming, bRetry);
        assert !Completes(cur, x) ==> a == Receive(port.incoming, bRetry, Step(cur, x));
        if state == 0 {
          if x == TelStart1 { state := 1; }
        } else if state == 1 {
          if x == TelStart2 { state := 2; }
        } else if state == 2 {
          usDataSize := x;
          state := 3;
        } else if state == 3 {
          usDataSize := (usDataSize * 0x100) % 0x1_0000 + x;
          state := if usDataSize == 0 then 5 else 4;
        } else if state == 4 {
          bytelist := bytelist + [x];
          usChecksum := (usChecksum + x) % 0x1_0000;
          usDataSize := (usDataSize - 1) % 0x1_0000;
          state := if usDataSize == 0 then 5 else 4;
        } else if state == 5 {
          usRxChecksum := x;
          state := 6;
        } else if state == 6 {
          usRxChecksum := (usRxChecksum * 0x100) % 0x1_0000 + x;
          state := 7;
        } else if state == 7 {
          if x == TelEnd1 { state := 8; }
        } else if state == 8 {
          if x == TelEnd2 {
            state := 0;
            bFertig := true;
          }
        } else {
          state := 0;
        }
        assert Rx(state, usDataSize, usChecksum, usRxChecksum, bytelist) == Step(cur, x);
      }
      rx' := Rx(state, usDataSize, usChecksum, usRxChecksum, bytelist);
    }

    /** Sends data as a telegram and reads the reply, with `repeat` retries.
        Null (None) when there is no port or no data; otherwise the outcome of
        SendTelSpec, the frame written once per send. */
    static method SendTel(port: SerialLink?, data: seq<byte>, repeat: int) returns (r: Option<seq<byte>>)
      requires |data| <= MaxPayload
      modifies port
      ensures port == null || |data| == 0 ==> r == None
      ensures port != null ==>
        var t := SendTelSpec(data, old(port.incoming), repeat);
        && r == t.payload
        && port.incoming == t.rest
        && port.written == old(port.written) + Copies(Frame(data), t.sends)
    {
      if port == null || |data| == 0 {
        return None;
      }
      var usChecksum := ComputeChecksum(data);
      var sendbuf := BuildFrame(data, usChecksum);
      ghost var frame := sendbuf[..];
      ghost var total := SendTelSpec(data, port.incoming, repeat);
      // The receiver variables: state, length, running and received checksum,
      // and the payload buffer (never cleared between sends).
      var rx := Rx(0, |data|, usChecksum, 0, []);
      var bRetry := false;
      var rep := repeat + 1;
      ExchangeResets(port.incoming, rep, bRetry, rx);
      while rep > 0
        modifies port
        invariant frame == Frame(data) && sendbuf[..] == frame
        invariant var e := Exchange(port.incoming, rep, bRetry, rx);
          && e.payload == total.payload && e.rest == total.rest && e.sends <= total.sends
          && port.written == old(port.written) + Copies(frame, total.sends - e.sends)
        decreases rep
      {
        ghost var e0 := Exchange(port.incoming, rep, bRetry, rx);
        port.Write(sendbuf[..]);
        assert Copies(frame, total.sends - e0.sends) + [frame] == Copies(frame, total.sends - e0.sends + 1);
        var bFertig;
        bFertig, rx, bRetry := ReceiveReply(port, rx.(state := 0, chk := 0), bRetry);
        if bFertig {
          // A completed telegram ends the retries, whatever its checksum.
          rep := 0;
          if rx.chk == rx.rxChk {
            return Some(rx.payload);
          }
        }
        rep := rep - 1;
      }
      return None;
    }

    /** The last used page of the device memory, from the header page. */
    static method GetMaxPage(d: seq<byte>) returns (r: Outcome<byte>)
      ensures r == MaxPage(d)
    {
      var aktAdr := TableStart;
      if |d| < HeaderSize {
        return Returned(0);
      }
      if d[aktAdr] == Terminator {
        return Returned(0);
      }
      while aktAdr < 0xFFFF
        invariant TableStart <= aktAdr <= 0xFFFF && aktAdr <= |d|
        invariant FirstPair(d, TableStart) == FirstPair(d, aktAdr)
        invariant aktAdr > TableStart || d[aktAdr] != Terminator
        invariant aktAdr == |d| ==> d[aktAdr - 1] != Terminator
      {
        if aktAdr >= |d| {
          return Threw(IndexOutOfRange);
        }
        if d[aktAdr] == Terminator {
          if aktAdr + 1 >= |d| {
            return Threw(IndexOutOfRange);
          }
          if d[aktAdr + 1] == Terminator {
            assert FirstPair(d, aktAdr) == aktAdr;
            break;
          }
        }
        aktAdr := aktAdr + 1;
      }
      return Returned(d[aktAdr - 1]);
    }

    /** Requests `size` bytes at addr: null without a port, otherwise the reply
        of SendTel with two retries. The request is logged. */
    method ReadDeviceMemory(addr: nat, size: byte) returns (r: Option<seq<byte>>)
      requires addr < 0x1_0000_0000
      modifies this, port
      ensures port == old(port) && log == old(log) + [Block(addr, r)]
      ensures port == null ==> r == None
      ensures port != null ==>
        var req := ReadMemoryRequest(addr, size);
        var t := SendTelSpec(req, old(port.incoming), 2);
        && r == t.payload
        && port.incoming == t.rest
        && port.written == old(port.written) + Copies(Frame(req), t.sends)
    {
      if port == null {
        r := None;
      } else {
        var packet := new byte[5];
        packet[0] := TelReadMemory;
        packet[1] := addr % 0x100;
        packet[2] := (addr / 0x100) % 0x100;
        packet[3] := (addr / 0x1_0000) % 0x100;
        packet[4] := size;
        assert packet[..] == ReadMemoryRequest(addr, size);
        r := SendTel(port, packet[..], 2);
      }
      log := log + [Block(addr, r)];
    }

    /** One block request as the dump sees it: only the log entry
        (ReadDeviceMemory states what the reply is). */
    method RequestBlock(addr: nat) returns (data: Option<seq<byte>>)
      requires addr < 0x1_0000_0000
      modifies this, port
      ensures port == old(port) && log == old(log) + [Block(addr, data)]
    {
      data := ReadDeviceMemory(addr, BlockSize);
    }

    /** Reads one 4096-byte page as 32 blocks from ulAdr on, appending each
        block's data bytes; stops at the first unusable reply. `page` is the
        requests this call made. */
    method ReadPage(ulAdr: nat, bytelist: seq<byte>) returns (ok: bool, next: seq<byte>, ghost page: seq<Block>)
      requires ulAdr + PageSize <= 0x1_0000_0000
      modifies this, port
      ensures port == old(port) && log == old(log) + page
      ensures Consecutive(page, ulAdr)
      ensures !ok ==> Stopped(page) && |page| <= BlocksPerPage
      ensures ok ==> |page| == BlocksPerPage && AllOk(page) && next == bytelist + Image(page)
    {
      page := [];
      var adr := ulAdr;
      var ucBlockCount := 0;
      next := bytelist;
      while ucBlockCount < BlocksPerPage
        invariant 0 <= ucBlockCount <= BlocksPerPage && port == old(port)
        invariant |page| == ucBlockCount && adr == ulAdr + BlockSize * ucBlockCount
        invariant log == old(log) + page && Consecutive(page, ulAdr)
        invariant AllOk(page) && next == bytelist + Image(page)
      {
        var data := RequestBlock(adr);
        LogAppend(old(log), page, [Block(adr, data)]);
        if data.None? || |data.value| < BlockSize + 1 {
          ConsecutiveAppend(page, ulAdr, Block(adr, data));
          StoppedAfter(page, [Block(adr, data)]);
          page := page + [Block(adr, data)];
          return false, next, page;
        }
        BlockGrow(page, ulAdr, Block(adr, data), bytelist, next);
        page := page + [Block(adr, data)];
        next := next + data.value[1..BlockSize + 1];
        adr := adr + BlockSize;
        ucBlockCount := ucBlockCount + 1;
      }
      return true, next, page;
    }

    /** Reads pages 1 to ucMaxPage in order, appending each block's data bytes;
        stops at the first unusable reply. */
    method ReadPages(ucMaxPage: byte, bytelist: seq<byte>) returns (ok: bool, next: seq<byte>, ghost pages: seq<Block>)
      requires ucMaxPage < 0xFF
      modifies this, port
      ensures port == old(port) && log == old(log) + pages
      ensures Consecutive(pages, PageSize)
      ensures !ok ==> Stopped(pages) && |pages| <= BlocksPerPage * ucMaxPage
      ensures ok ==> |pages| == BlocksPerPage * ucMaxPage && AllOk(pages) && next == bytelist + Image(pages)
    {
      pages := [];
      next := bytelist;
      var ucPageCount: byte := 1;
      while ucPageCount <= ucMaxPage
        invariant 1 <= ucPageCount <= ucMaxPage + 1 && port == old(port)
        invariant |pages| == BlocksPerPage * (ucPageCount - 1)
        invariant log == old(log) + pages && Consecutive(pages, PageSize)
        invariant AllOk(pages) && next == bytelist + Image(pages)
      {
        ghost var page;
        ghost var prev := next;
        ok, next, page := ReadPage(PageSize * ucPageCount, next);
        LogAppend(old(log), pages, page);
        assert PageSize + BlockSize * |pages| == PageSize * ucPageCount;
        if !ok {
          ConsecutiveConcat(pages, page, PageSize);
          StoppedAfter(pages, page);
          pages := pages + page;
          return false, next, pages;
        }
        PageGrow(pages, page, PageSize, bytelist, prev, next);
        pages := pages + page;
        ucPageCount := ucPageCount + 1;
      }
      return true, next, pages;
    }

    /** The pages after the header: pages 1 to ucMaxPage, where the header
        page has already been read into bytelist. */
    method ReadBody(ghost header: seq<Block>, bytelist: seq<byte>, ucMaxPage: byte)
      returns (r: Outcome<Option<seq<byte>>>, ghost pages: seq<Block>)
      requires |header| == BlocksPerPage && AllOk(header) && Consecutive(header, 0)
      requires bytelist == Image(header) && MaxPage(bytelist) == Returned(ucMaxPage)
      modifies this, port
      ensures port == old(port) && log == old(log) + pages
      ensures DumpResult(header + pages, r)
    {
      // The page number is below 0xFF, so the byte-sized page counter cannot wrap.
      MaxPageBelowTerminator(bytelist);
      var ok, image;
      ok, image, pages := ReadPages(ucMaxPage, bytelist);
      ConsecutiveConcat(header, pages, 0);
      if !ok {
        StoppedAfter(header, pages);
        assert (header + pages)[..BlocksPerPage] == header;
        DumpStopped(header + pages);
        return Returned(None), pages;
      }
      DumpComplete(header, pages);
      return Returned(Some(image)), pages;
    }

    /** Dumps the device memory: the header page (32 blocks from address 0),
        then, when the header names a last page above 0, pages 1 to that page.
        `requests` is the block requests of this call, and DumpResult relates
        them to the outcome. */
    method ReadData() returns (r: Outcome<Option<seq<byte>>>, ghost requests: seq<Block>)
      modifies this, port
      ensures port == old(port) && log == old(log) + requests
      ensures DumpResult(requests, r)
    {
      var ok, bytelist, header := ReadPage(0, []);
      if !ok {
        DumpStopped(header);
        return Returned(None), header;
      }
      assert bytelist == Image(header) by {
        assert [] + Image(header) == Image(header);
      }
      var maxPage := GetMaxPage(bytelist);
      if maxPage.Threw? {
        DumpHeaderRaised(header, maxPage.error);
        return Threw(maxPage.error), header;
      }
      ghost var pages;
      r, pages := ReadBody(header, bytelist, maxPage.value);
      requests := header + pages;
      LogAppend(old(log), header, pages);
    }
  }
}
