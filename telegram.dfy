/** The telegram protocol of the NavRun 500 serial link, as pure definitions:
    how a request is framed, how the receiver's byte-driven state machine reads
    a reply, and how the send/receive cycle is repeated under a retry budget.
    The imperative `SendTel` in module Transport is proved equal to `SendTelSpec`. */
module Telegram {
  import opened Common

  const TelStart1: byte := 0xA0
  const TelStart2: byte := 0xA2
  const TelEnd1: byte := 0xB0
  const TelEnd2: byte := 0xB3

  /** The largest payload whose length fits the 16-bit length field. */
  const MaxPayload := 0xFFFF

  // ---------------------------------------------------------------------
  // Framing
  // ---------------------------------------------------------------------

  /** Exact sum of the payload bytes. */
  function Sum(p: seq<byte>): nat
  {
    if p == [] then 0 else p[0] + Sum(p[1..])
  }

  lemma {:induction false} SumAppend(p: seq<byte>, x: byte)
    ensures Sum(p + [x]) == Sum(p) + x
  {
    if p == [] {
      assert [] + [x] == [x];
    } else {
      assert (p + [x])[1..] == p[1..] + [x];
      SumAppend(p[1..], x);
    }
  }

  /** Reducing a partial sum modulo 2^16 early does not change the final checksum. */
  lemma ModSum(a: int, b: int)
    ensures (a % 0x1_0000 + b) % 0x1_0000 == (a + b) % 0x1_0000
  {
    var q := a / 0x1_0000;
    assert a == q * 0x1_0000 + a % 0x1_0000;
    assert a + b == (a % 0x1_0000 + b) + q * 0x1_0000;
  }

  /** The 16-bit checksum: the payload bytes summed modulo 65536. */
  function Checksum(p: seq<byte>): (c: int)
    ensures 0 <= c < 0x1_0000
  {
    Sum(p) % 0x1_0000
  }

  /** A telegram carrying payload p and checksum field c, as laid out on the wire:
      A0 A2 lenHi lenLo payload chkHi chkLo B0 B3. */
  function Framed(p: seq<byte>, c: int): (f: seq<byte>)
    requires |p| <= MaxPayload && 0 <= c < 0x1_0000
    ensures |f| == |p| + 8
  {
    [TelStart1, TelStart2, |p| / 0x100, |p| % 0x100] + p + [c / 0x100, c % 0x100, TelEnd1, TelEnd2]
  }

  /** The telegram that carries p with its correct checksum. */
  function Frame(p: seq<byte>): (f: seq<byte>)
    requires |p| <= MaxPayload
  {
    Framed(p, Checksum(p))
  }

  lemma FrameExample()
    ensures Frame([0x10]) == [0xA0, 0xA2, 0x00, 0x01, 0x10, 0x00, 0x10, 0xB0, 0xB3]
  {
    assert Sum([0x10]) == 0x10 + Sum([]);
  }

  // ---------------------------------------------------------------------
  // The receiver
  // ---------------------------------------------------------------------

  /** What one read from the port delivers: a byte, or a read timeout. */
  datatype ReadEvent = Byte(value: byte) | Timeout

  /** The read events that deliver the bytes of s, in order. */
  function Bytes(s: seq<byte>): seq<ReadEvent>
  {
    seq(|s|, k requires 0 <= k < |s| => Byte(s[k]))
  }

  /** The receiver's variables: the state number, the remaining (or declared)
      length, the running checksum, the received checksum and the payload buffer. */
  datatype Rx = Rx(state: int, size: int, chk: int, rxChk: int, payload: seq<byte>)

  /** One byte through the receiver's switch statement. */
  function Step(rx: Rx, x: byte): Rx
  {
    match rx.state
    case 0 => if x == TelStart1 then rx.(state := 1) else rx
    case 1 => if x == TelStart2 then rx.(state := 2) else rx
    case 2 => rx.(size := x, state := 3)
    case 3 =>
      var n := (rx.size * 0x100) % 0x1_0000 + x;
      rx.(size := n, state := if n == 0 then 5 else 4)
    case 4 =>
      var n := (rx.size - 1) % 0x1_0000;
      rx.(payload := rx.payload + [x], chk := (rx.chk + x) % 0x1_0000,
          size := n, state := if n == 0 then 5 else 4)
    case 5 => rx.(rxChk := x, state := 6)
    case 6 => rx.(rxChk := (rx.rxChk * 0x100) % 0x1_0000 + x, state := 7)
    case 7 => if x == TelEnd1 then rx.(state := 8) else rx
    case 8 => if x == TelEnd2 then rx.(state := 0) else rx
    case _ => rx.(state := 0)
  }

  /** Whether byte x completes a telegram in the receiver's current state. */
  predicate Completes(rx: Rx, x: byte)
  {
    rx.state == 8 && x == TelEnd2
  }

  /** The result of one receive attempt: whether a telegram completed, the
      receiver's variables, the unread events, and whether the one forgiven
      timeout has been used. */
  datatype Attempt = Attempt(complete: bool, rx: Rx, rest: seq<ReadEvent>, retried: bool)

  /** One receive attempt. An exhausted input behaves as an endless series of
      timeouts. The first timeout of the whole call is skipped; any later one
      ends the attempt without a telegram. */
  function Receive(input: seq<ReadEvent>, retried: bool, rx: Rx): Attempt
    decreases |input|, if retried then 0 else 1
  {
    if input == [] || input[0].Timeout? then
      var rest := if input == [] then [] else input[1..];
      if retried then Attempt(false, rx, rest, true) else Receive(rest, true, rx)
    else
      var x := input[0].value;
      if Completes(rx, x) then Attempt(true, Step(rx, x), input[1..], retried)
      else Receive(input[1..], retried, Step(rx, x))
  }

  // ---------------------------------------------------------------------
  // The send/receive cycle
  // ---------------------------------------------------------------------

  /** The outcome of a whole exchange: the reply payload (None for null), the
      unread events, and how many times the request frame was written. */
  datatype Reply = Reply(payload: Option<seq<byte>>, rest: seq<ReadEvent>, sends: nat)

  /** Send-then-receive cycles while the budget is positive. Each attempt starts
      in state 0 with a zero running checksum; the payload buffer, the received
      checksum, the length variable and the retry flag carry over. A completed
      telegram sets the budget to 0 before the checksum comparison. */
  function Exchange(input: seq<ReadEvent>, budget: int, retried: bool, rx: Rx): Reply
    decreases if budget < 0 then 0 else budget
  {
    if budget <= 0 then Reply(None, input, 0)
    else
      var a := Receive(input, retried, rx.(state := 0, chk := 0));
      if a.complete && a.rx.chk == a.rx.rxChk then Reply(Some(a.rx.payload), a.rest, 1)
      else
        var r := Exchange(a.rest, (if a.complete then 0 else budget) - 1, a.retried, a.rx);
        r.(sends := r.sends + 1)
  }

  /** SendTel on an open port whose reads deliver `input`, with `repeat` retries.
      The length variable starts as the request length and the received-checksum
      variable as 0; the running checksum starts as the request's checksum, but
      every attempt clears it first (ExchangeResets), so it is written as 0. */
  function SendTelSpec(data: seq<byte>, input: seq<ReadEvent>, repeat: int): Reply
    requires |data| <= MaxPayload
  {
    if |data| == 0 then Reply(None, input, 0)
    else Exchange(input, repeat + 1, false, Rx(0, |data|, 0, 0, []))
  }

  /** An exchange does not depend on the receiver state or running checksum it
      starts from. */
  lemma ExchangeResets(input: seq<ReadEvent>, budget: int, retried: bool, rx: Rx)
    ensures Exchange(input, budget, retried, rx) == Exchange(input, budget, retried, rx.(state := 0, chk := 0))
  {
  }

  // ---------------------------------------------------------------------
  // Receiver lemmas
  // ---------------------------------------------------------------------

  lemma BytesAppend(s: seq<byte>, t: seq<byte>)
    ensures Bytes(s + t) == Bytes(s) + Bytes(t)
  {
  }

  lemma ReceiveByte(x: byte, rest: seq<ReadEvent>, retried: bool, rx: Rx)
    ensures Receive([Byte(x)] + rest, retried, rx)
         == if Completes(rx, x) then Attempt(true, Step(rx, x), rest, retried)
            else Receive(rest, retried, Step(rx, x))
  {
    assert ([Byte(x)] + rest)[1..] == rest;
  }

  /** The byte a waiting state is looking for. */
  function Awaited(state: int): byte
    requires state in {0, 1, 7, 8}
  {
    if state == 0 then TelStart1
    else if state == 1 then TelStart2
    else if state == 7 then TelEnd1
    else TelEnd2
  }

  /** States 0, 1, 7 and 8 ignore every byte but the one they wait for. In
      particular state 1 does not fall back to state 0 on a byte other than A2,
      and state 8 does not fall back on a byte other than B3. */
  lemma {:induction false} WaitingIgnores(j: seq<byte>, rest: seq<ReadEvent>, retried: bool, rx: Rx)
    requires rx.state in {0, 1, 7, 8}
    requires forall k :: 0 <= k < |j| ==> j[k] != Awaited(rx.state)
    ensures Receive(Bytes(j) + rest, retried, rx) == Receive(rest, retried, rx)
  {
    if j != [] {
      assert Bytes(j) + rest == [Byte(j[0])] + (Bytes(j[1..]) + rest);
      ReceiveByte(j[0], Bytes(j[1..]) + rest, retried, rx);
      assert Step(rx, j[0]) == rx;
      WaitingIgnores(j[1..], rest, retried, rx);
    } else {
      assert Bytes(j) + rest == rest;
    }
  }

  lemma ReceiveHeader(n: nat, rest: seq<ReadEvent>, retried: bool, rx: Rx)
    requires rx.state == 0 && n <= MaxPayload
    ensures Receive(Bytes([TelStart1, TelStart2, n / 0x100, n % 0x100]) + rest, retried, rx)
         == Receive(rest, retried, rx.(state := if n == 0 then 5 else 4, size := n))
  {
    var hi, lo := n / 0x100, n % 0x100;
    assert Bytes([TelStart1, TelStart2, hi, lo]) + rest
        == [Byte(TelStart1)] + ([Byte(TelStart2)] + ([Byte(hi)] + ([Byte(lo)] + rest)));
    ReceiveByte(TelStart1, [Byte(TelStart2)] + ([Byte(hi)] + ([Byte(lo)] + rest)), retried, rx);
    var rx1 := rx.(state := 1);
    ReceiveByte(TelStart2, [Byte(hi)] + ([Byte(lo)] + rest), retried, rx1);
    var rx2 := rx1.(state := 2);
    ReceiveByte(hi, [Byte(lo)] + rest, retried, rx2);
    var rx3 := rx2.(size := hi, state := 3);
    ReceiveByte(lo, rest, retried, rx3);
    assert (hi * 0x100) % 0x1_0000 + lo == n;
  }

  lemma {:induction false} ReceivePayload(p: seq<byte>, rest: seq<ReadEvent>, retried: bool, rx: Rx)
    requires rx.state == 4 && 1 <= |p| <= MaxPayload && rx.size == |p|
    ensures Receive(Bytes(p) + rest, retried, rx)
         == Receive(rest, retried, rx.(state := 5, size := 0, chk := (rx.chk + Sum(p)) % 0x1_0000,
                                        payload := rx.payload + p))
  {
    var x := p[0];
    assert Bytes(p) + rest == [Byte(x)] + (Bytes(p[1..]) + rest);
    ReceiveByte(x, Bytes(p[1..]) + rest, retried, rx);
    var rx' := Step(rx, x);
    assert rx'.chk == (rx.chk + x) % 0x1_0000;
    if |p| == 1 {
      assert p == [x];
      assert Sum(p) == x + Sum([]);
    } else {
      ReceivePayload(p[1..], rest, retried, rx');
      assert rx'.payload + p[1..] == rx.payload + p by {
        assert [x] + p[1..] == p;
      }
      ModSum(rx.chk + x, Sum(p[1..]));
    }
  }

  lemma ReceiveTrailer(c: int, rest: seq<ReadEvent>, retried: bool, rx: Rx)
    requires rx.state == 5 && 0 <= c < 0x1_0000
    ensures Receive(Bytes([c / 0x100, c % 0x100, TelEnd1, TelEnd2]) + rest, retried, rx)
         == Attempt(true, rx.(state := 0, rxChk := c), rest, retried)
  {
    var hi, lo := c / 0x100, c % 0x100;
    assert Bytes([hi, lo, TelEnd1, TelEnd2]) + rest
        == [Byte(hi)] + ([Byte(lo)] + ([Byte(TelEnd1)] + ([Byte(TelEnd2)] + rest)));
    ReceiveByte(hi, [Byte(lo)] + ([Byte(TelEnd1)] + ([Byte(TelEnd2)] + rest)), retried, rx);
    var rx6 := rx.(rxChk := hi, state := 6);
    ReceiveByte(lo, [Byte(TelEnd1)] + ([Byte(TelEnd2)] + rest), retried, rx6);
    var rx7 := rx6.(rxChk := (hi * 0x100) % 0x1_0000 + lo, state := 7);
    assert rx7.rxChk == c;
    ReceiveByte(TelEnd1, [Byte(TelEnd2)] + rest, retried, rx7);
    ReceiveByte(TelEnd2, rest, retried, rx7.(state := 8));
  }

  /** A telegram read from state 0 completes, appends its payload to the buffer,
      adds its bytes to the running checksum and records its checksum field. */
  lemma ReceiveFramed(p: seq<byte>, c: int, rest: seq<ReadEvent>, retried: bool, rx: Rx)
    requires |p| <= MaxPayload && 0 <= c < 0x1_0000
    requires rx.state == 0 && 0 <= rx.chk < 0x1_0000
    ensures Receive(Bytes(Framed(p, c)) + rest, retried, rx)
         == Attempt(true, Rx(0, 0, (rx.chk + Sum(p)) % 0x1_0000, c, rx.payload + p), rest, retried)
  {
    var head := [TelStart1, TelStart2, |p| / 0x100, |p| % 0x100];
    var tail := [c / 0x100, c % 0x100, TelEnd1, TelEnd2];
    BytesAppend(head + p, tail);
    BytesAppend(head, p);
    assert Bytes(Framed(p, c)) + rest == Bytes(head) + (Bytes(p) + (Bytes(tail) + rest));
    ReceiveHeader(|p|, Bytes(p) + (Bytes(tail) + rest), retried, rx);
    var rx4 := rx.(state := if |p| == 0 then 5 else 4, size := |p|);
    if |p| == 0 {
      assert Bytes(p) + (Bytes(tail) + rest) == Bytes(tail) + rest;
      ReceiveTrailer(c, rest, retried, rx4);
      assert rx.payload + p == rx.payload;
    } else {
      ReceivePayload(p, Bytes(tail) + rest, retried, rx4);
      ReceiveTrailer(c, rest, retried,
        rx4.(state := 5, size := 0, chk := (rx.chk + Sum(p)) % 0x1_0000, payload := rx.payload + p));
    }
  }

  // ---------------------------------------------------------------------
  // Exchange lemmas
  // ---------------------------------------------------------------------

  /** Garbage without A0 followed by a telegram: the first attempt completes it,
      and the call returns its payload exactly when its checksum field is right;
      a wrong checksum ends the call at once, since the completed telegram has
      already set the budget to 0. Either way the request was written once. */
  lemma SendTelFramed(data: seq<byte>, g: seq<byte>, p: seq<byte>, c: int, rest: seq<ReadEvent>, repeat: int)
    requires 1 <= |data| <= MaxPayload && repeat >= 0
    requires forall k :: 0 <= k < |g| ==> g[k] != TelStart1
    requires |p| <= MaxPayload && 0 <= c < 0x1_0000
    ensures SendTelSpec(data, Bytes(g) + Bytes(Framed(p, c)) + rest, repeat)
         == if c == Checksum(p) then Reply(Some(p), rest, 1) else Reply(None, rest, 1)
  {
    var rx := Rx(0, |data|, 0, 0, []);
    assert Bytes(g) + Bytes(Framed(p, c)) + rest == Bytes(g) + (Bytes(Framed(p, c)) + rest);
    WaitingIgnores(g, Bytes(Framed(p, c)) + rest, false, rx);
    ReceiveFramed(p, c, rest, false, rx);
    assert [] + p == p;
    var a := Receive(Bytes(g) + Bytes(Framed(p, c)) + rest, false, rx);
    assert a == Attempt(true, Rx(0, 0, Checksum(p), c, p), rest, false);
    assert Rx(0, |data|, 0, 0, []).(state := 0, chk := 0) == rx;
    if c != Checksum(p) {
      assert Exchange(rest, -1, false, a.rx) == Reply(None, rest, 0);
    }
  }

  /** Round trip: after garbage without A0, a correctly framed reply is returned
      exactly, on the first attempt. */
  lemma SendTelRoundTrip(data: seq<byte>, g: seq<byte>, p: seq<byte>, rest: seq<ReadEvent>, repeat: int)
    requires 1 <= |data| <= MaxPayload && repeat >= 0
    requires forall k :: 0 <= k < |g| ==> g[k] != TelStart1
    requires |p| <= MaxPayload
    ensures SendTelSpec(data, Bytes(g) + Bytes(Frame(p)) + rest, repeat) == Reply(Some(p), rest, 1)
  {
    SendTelFramed(data, g, p, Checksum(p), rest, repeat);
  }

  /** A zero declared length goes straight to the checksum bytes: the reply is
      the empty payload when the checksum field is 0, and null otherwise. */
  lemma SendTelZeroLength(data: seq<byte>, c: int, rest: seq<ReadEvent>, repeat: int)
    requires 1 <= |data| <= MaxPayload && repeat >= 0 && 0 <= c < 0x1_0000
    ensures SendTelSpec(data, Bytes([TelStart1, TelStart2, 0, 0, c / 0x100, c % 0x100, TelEnd1, TelEnd2]) + rest, repeat)
         == if c == 0 then Reply(Some([]), rest, 1) else Reply(None, rest, 1)
  {
    assert Framed([], c) == [TelStart1, TelStart2, 0, 0, c / 0x100, c % 0x100, TelEnd1, TelEnd2];
    assert Bytes([]) + Bytes(Framed([], c)) + rest == Bytes(Framed([], c)) + rest;
    SendTelFramed(data, [], [], c, rest, repeat);
  }

  /** No event of the input is the byte B3. */
  predicate NoEnd(input: seq<ReadEvent>)
  {
    forall k :: 0 <= k < |input| ==> input[k] != Byte(TelEnd2)
  }

  lemma {:induction false} ReceiveWithoutEnd(input: seq<ReadEvent>, retried: bool, rx: Rx)
    requires NoEnd(input)
    ensures !Receive(input, retried, rx).complete
    ensures NoEnd(Receive(input, retried, rx).rest)
    decreases |input|, if retried then 0 else 1
  {
    if input == [] || input[0].Timeout? {
      var rest := if input == [] then [] else input[1..];
      assert NoEnd(rest) by {
        forall k | 0 <= k < |rest| ensures rest[k] != Byte(TelEnd2) {
          assert rest[k] == input[k + 1];
        }
      }
      if !retried {
        ReceiveWithoutEnd(rest, true, rx);
      }
    } else {
      assert input[0] != Byte(TelEnd2);
      var rest := input[1..];
      assert NoEnd(rest) by {
        forall k | 0 <= k < |rest| ensures rest[k] != Byte(TelEnd2) {
          assert rest[k] == input[k + 1];
        }
      }
      ReceiveWithoutEnd(rest, retried, Step(rx, input[0].value));
    }
  }

  /** No event of the input is the byte A0. */
  predicate NoStart(input: seq<ReadEvent>)
  {
    forall k :: 0 <= k < |input| ==> input[k] != Byte(TelStart1)
  }

  /** Without an A0 byte the receiver never leaves state 0, so no attempt
      completes, and what it leaves unread still has no A0. */
  lemma {:induction false} ReceiveWithoutStart(input: seq<ReadEvent>, retried: bool, rx: Rx)
    requires NoStart(input) && rx.state == 0
    ensures !Receive(input, retried, rx).complete
    ensures NoStart(Receive(input, retried, rx).rest)
    decreases |input|, if retried then 0 else 1
  {
    if input == [] || input[0].Timeout? {
      var rest := if input == [] then [] else input[1..];
      assert NoStart(rest) by {
        forall k | 0 <= k < |rest| ensures rest[k] != Byte(TelStart1) {
          assert rest[k] == input[k + 1];
        }
      }
      if !retried {
        ReceiveWithoutStart(rest, true, rx);
      }
    } else {
      assert input[0] != Byte(TelStart1);
      var rest := input[1..];
      assert NoStart(rest) by {
        forall k | 0 <= k < |rest| ensures rest[k] != Byte(TelStart1) {
          assert rest[k] == input[k + 1];
        }
      }
      ReceiveWithoutStart(rest, retried, Step(rx, input[0].value));
    }
  }

  /** Input from which no telegram can be read, lacking either its first
      start marker or its last end marker, makes every attempt fail: the
      exchange spends its whole budget and returns null. */
  lemma {:induction false} ExchangeWithoutTelegram(input: seq<ReadEvent>, budget: int, retried: bool, rx: Rx)
    requires NoEnd(input) || NoStart(input)
    ensures Exchange(input, budget, retried, rx).payload == None
    ensures Exchange(input, budget, retried, rx).sends == if budget < 0 then 0 else budget
    decreases if budget < 0 then 0 else budget
  {
    if budget > 0 {
      var rx0 := rx.(state := 0, chk := 0);
      if NoEnd(input) {
        ReceiveWithoutEnd(input, retried, rx0);
      } else {
        ReceiveWithoutStart(input, retried, rx0);
      }
      var a := Receive(input, retried, rx0);
      ExchangeWithoutTelegram(a.rest, budget - 1, a.retried, a.rx);
    }
  }

  /** When no telegram can complete, the request is written repeat+1 times and
      the result is null. */
  lemma SendTelExhausts(data: seq<byte>, input: seq<ReadEvent>, repeat: int)
    requires 1 <= |data| <= MaxPayload && repeat >= -1
    requires NoEnd(input) || NoStart(input)
    ensures SendTelSpec(data, input, repeat).payload == None
    ensures SendTelSpec(data, input, repeat).sends == repeat + 1
  {
    ExchangeWithoutTelegram(input, repeat + 1, false, Rx(0, |data|, 0, 0, []));
  }

  /** Whatever the input, an exchange writes the request at most `budget`
      times, and at least once when the budget is positive. */
  lemma {:induction false} ExchangeBound(input: seq<ReadEvent>, budget: int, retried: bool, rx: Rx)
    ensures budget <= 0 ==> Exchange(input, budget, retried, rx) == Reply(None, input, 0)
    ensures budget > 0 ==> 1 <= Exchange(input, budget, retried, rx).sends <= budget
    decreases if budget < 0 then 0 else budget
  {
    if budget > 0 {
      var a := Receive(input, retried, rx.(state := 0, chk := 0));
      if !(a.complete && a.rx.chk == a.rx.rxChk) {
        ExchangeBound(a.rest, (if a.complete then 0 else budget) - 1, a.retried, a.rx);
      }
    }
  }

  /** On every input SendTel writes the request at most repeat+1 times, at
      least once when repeat is not negative, and not at all (returning null)
      when it is. */
  lemma SendTelBound(data: seq<byte>, input: seq<ReadEvent>, repeat: int)
    requires 1 <= |data| <= MaxPayload
    ensures repeat < 0 ==> SendTelSpec(data, input, repeat) == Reply(None, input, 0)
    ensures repeat >= 0 ==> 1 <= SendTelSpec(data, input, repeat).sends <= repeat + 1
  {
    ExchangeBound(input, repeat + 1, false, Rx(0, |data|, 0, 0, []));
  }

  /** One read timeout is forgiven: a reply behind a single timeout is still read. */
  lemma OneTimeoutForgiven(data: seq<byte>, p: seq<byte>, rest: seq<ReadEvent>)
    requires 1 <= |data| <= MaxPayload && |p| <= MaxPayload
    ensures SendTelSpec(data, [Timeout] + Bytes(Frame(p)) + rest, 0) == Reply(Some(p), rest, 1)
  {
    var rx := Rx(0, |data|, 0, 0, []);
    var tail := Bytes(Frame(p)) + rest;
    assert [Timeout] + Bytes(Frame(p)) + rest == [Timeout] + tail;
    assert ([Timeout] + tail)[1..] == tail;
    ReceiveFramed(p, Checksum(p), rest, true, rx);
    assert [] + p == p;
  }

  /** The forgiven timeout is not restored for later attempts: after two timeouts
      end the first attempt, one more timeout ends the second, and a reply that
      follows is never read. */
  lemma RetryFlagNotReset(data: seq<byte>, p: seq<byte>)
    requires 1 <= |data| <= MaxPayload && |p| <= MaxPayload
    ensures SendTelSpec(data, [Timeout, Timeout, Timeout] + Bytes(Frame(p)), 1)
         == Reply(None, Bytes(Frame(p)), 2)
  {
    var f := Bytes(Frame(p));
    var input := [Timeout, Timeout, Timeout] + f;
    assert input[1..] == [Timeout, Timeout] + f;
    assert input[1..][1..] == [Timeout] + f;
    assert input[1..][1..][1..] == f;
    var rx := Rx(0, |data|, 0, 0, []);
    assert Receive(input[1..], true, rx) == Attempt(false, rx, input[1..][1..], true);
    assert Receive(input, false, rx) == Attempt(false, rx, [Timeout] + f, true);
    assert Receive([Timeout] + f, true, rx) == Attempt(false, rx, f, true);
    assert Exchange(f, 0, true, rx) == Reply(None, f, 0);
    assert Exchange([Timeout] + f, 1, true, rx) == Reply(None, f, 1);
  }

  /** The payload buffer is not cleared between attempts: bytes taken in by an
      attempt that timed out stay in front of the next attempt's payload. */
  lemma StalePayloadKept(data: seq<byte>, x: byte, p: seq<byte>, rest: seq<ReadEvent>)
    requires 1 <= |data| <= MaxPayload && |p| <= MaxPayload
    ensures SendTelSpec(data, Bytes([TelStart1, TelStart2, 0, 2, x]) + [Timeout, Timeout] + Bytes(Frame(p)) + rest, 1)
         == Reply(Some([x] + p), rest, 2)
  {
    var tail := Bytes(Frame(p)) + rest;
    var after := [Timeout, Timeout] + tail;
    var rx := Rx(0, |data|, 0, 0, []);
    assert Bytes([TelStart1, TelStart2, 0, 2, x]) + [Timeout, Timeout] + Bytes(Frame(p)) + rest
        == Bytes([TelStart1, TelStart2, 0, 2]) + (Bytes([x]) + after);
    ReceiveHeader(2, Bytes([x]) + after, false, rx);
    var rx4 := rx.(state := 4, size := 2);
    assert Bytes([x]) + after == [Byte(x)] + after;
    ReceiveByte(x, after, false, rx4);
    var rx5 := Step(rx4, x);
    assert rx5 == Rx(4, 1, x, 0, [x]);
    assert after[1..] == [Timeout] + tail;
    assert after[1..][1..] == tail;
    assert Receive(after, false, rx5) == Attempt(false, rx5, tail, true);
    ReceiveFramed(p, Checksum(p), rest, true, rx5.(state := 0, chk := 0));
  }
}
