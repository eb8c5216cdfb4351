/** The software UART: a bit-level transmitter and receiver with a ring buffer behind the receiver. */
module SwSerial {
  import opened Basics

  function Mask(i: nat): bv8
    requires i < 8
  {
    if i == 0 then 0x01 else if i == 1 then 0x02 else if i == 2 then 0x04 else if i == 3 then 0x08
    else if i == 4 then 0x10 else if i == 5 then 0x20 else if i == 6 then 0x40 else 0x80
  }

  predicate Bit(b: bv8, i: nat)
    requires i < 8
  {
    b & Mask(i) != 0
  }

  lemma BitsDetermineByte(a: bv8, b: bv8)
    requires forall i :: 0 <= i < 8 ==> Bit(a, i) == Bit(b, i)
    ensures a == b
  {
    assert Bit(a, 0) == Bit(b, 0) && Bit(a, 1) == Bit(b, 1) && Bit(a, 2) == Bit(b, 2) && Bit(a, 3) == Bit(b, 3);
    assert Bit(a, 4) == Bit(b, 4) && Bit(a, 5) == Bit(b, 5) && Bit(a, 6) == Bit(b, 6) && Bit(a, 7) == Bit(b, 7);
  }

  lemma ShiftRight(x: bv8, i: nat)
    requires i < 7
    ensures Bit(x >> 1, i) == Bit(x, i + 1)
  {
  }

  lemma LowBit(x: bv8)
    ensures x & 1 == 1 <==> Bit(x, 0)
  {
  }

  lemma Complement(x: bv8, i: nat)
    requires i < 8
    ensures Bit(!x, i) == !Bit(x, i)
  {
  }

  /** Shifting a sample in from the top. */
  lemma ShiftIn(x: bv8, level: bool, i: nat)
    requires i < 8
    ensures var y := if level then (x >> 1) | 0x80 else x >> 1;
            Bit(y, i) == if i == 7 then level else Bit(x, i + 1)
  {
  }

  /** Line levels, one per bit time: start, eight data bits, stop. */
  type Levels = s: seq<bool> | |s| == 10 witness seq(10, _ => false)

  /** The line while b is sent: start low, data from the lowest bit, stop high; an inverted port inverts
      the data only. */
  ghost predicate Carries(line: Levels, b: bv8, invert: bool) {
    !line[0] && line[9] && forall i :: 0 <= i < 8 ==> line[1 + i] == (Bit(b, i) != invert)
  }

  /** sw_write: the levels it puts on the line, one per bit time after the start edge. */
  method Write(b: bv8, invert: bool) returns (line: Levels)
    ensures Carries(line, b, invert)
  {
    var byte := b;
    if invert {
      byte := !byte;
    }
    forall i | 0 <= i < 8
      ensures Bit(!b, i) == !Bit(b, i)
    {
      Complement(b, i);
    }
    ghost var data := seq(8, i requires 0 <= i < 8 => Bit(b, i) != invert);
    var levels := [false];
    for i := 0 to 8
      invariant levels == [false] + data[..i]
      invariant Remaining(byte, data, i)
    {
      NextBit(byte, data, i);
      levels := levels + [byte & 1 == 1];
      byte := byte >> 1;
    }
    line := levels + [true];
  }

  /** The low bits of byte are the data bits still to be sent. */
  ghost predicate Remaining(byte: bv8, data: seq<bool>, i: nat) {
    i <= |data| == 8 && forall j :: i <= j < 8 ==> Bit(byte, j - i) == data[j]
  }

  lemma NextBit(byte: bv8, data: seq<bool>, i: nat)
    requires Remaining(byte, data, i) && i < 8
    ensures (byte & 1 == 1) == data[i]
    ensures Remaining(byte >> 1, data, i + 1)
  {
    LowBit(byte);
    forall j | i + 1 <= j < 8
      ensures Bit(byte >> 1, j - (i + 1)) == data[j]
    {
      ShiftRight(byte, j - (i + 1));
    }
  }

  /** The receiver's sampling loop. */
  method Sample(data: seq<bool>) returns (rec: bv8)
    requires |data| == 8
    ensures forall i :: 0 <= i < 8 ==> Bit(rec, i) == data[i]
  {
    rec := 0;
    for i := 0 to 8
      invariant forall j :: 8 - i <= j < 8 ==> Bit(rec, j) == data[j - (8 - i)]
    {
      ghost var before := rec;
      rec := rec >> 1;
      if data[i] {
        rec := rec | 0x80;
      }
      forall j | 7 - i <= j < 8
        ensures Bit(rec, j) == data[j - (7 - i)]
      {
        ShiftIn(before, data[i], j);
      }
    }
  }

  /** The start and stop samples are right, so the receiver takes the byte. */
  predicate Framed(line: Levels) { !line[0] && line[9] }

  function ByteOf(line: Levels, invert: bool): bv8 {
    var b := (if line[1] then 0x01 else 0) | (if line[2] then 0x02 else 0) | (if line[3] then 0x04 else 0)
           | (if line[4] then 0x08 else 0) | (if line[5] then 0x10 else 0) | (if line[6] then 0x20 else 0)
           | (if line[7] then 0x40 else 0) | (if line[8] then 0x80 else 0);
    if invert then !b else b
  }

  lemma ByteOfBits(line: Levels, invert: bool, i: nat)
    requires i < 8
    ensures Bit(ByteOf(line, invert), i) == (line[1 + i] != invert)
  {
    Complement(ByteOf(line, false), i);
  }

  /** Whatever the polarity, a receiver sampling what the transmitter sends gets the byte back; and only
      the levels of that byte give it. */
  lemma RoundTrip(line: Levels, b: bv8, invert: bool)
    ensures Carries(line, b, invert) <==> Framed(line) && ByteOf(line, invert) == b
  {
    forall i | 0 <= i < 8
      ensures Bit(ByteOf(line, invert), i) == (line[1 + i] != invert)
    {
      ByteOfBits(line, invert, i);
    }
    if Carries(line, b, invert) {
      BitsDetermineByte(ByteOf(line, invert), b);
    }
  }

  /** The position after pos in a ring of n. */
  function Next(pos: nat, n: nat): nat { if pos + 1 == n then 0 else pos + 1 }

  lemma NextIsModulo(pos: nat, n: nat)
    requires pos < n
    ensures (pos + 1) % n == Next(pos, n)
  {
    if pos + 1 < n {
      SmallModulo(pos + 1, n);
    }
  }

  lemma SmallModulo(x: nat, n: nat)
    requires x < n
    ensures x % n == x
  {
  }

  /** The bytes from outPos up to inPos, around the end if need be. */
  function Window(buf: seq<bv8>, inPos: nat, outPos: nat): (q: seq<bv8>)
    requires inPos < |buf| && outPos < |buf|
    ensures |q| == if outPos <= inPos then inPos - outPos else |buf| - outPos + inPos
  {
    if outPos <= inPos then buf[outPos..inPos] else buf[outPos..] + buf[..inPos]
  }

  lemma WindowPush(buf: seq<bv8>, inPos: nat, outPos: nat, b: bv8)
    requires inPos < |buf| && outPos < |buf|
    ensures var next := (inPos + 1) % |buf|;
            && next < |buf|
            && (next == outPos <==> |Window(buf, inPos, outPos)| == |buf| - 1)
            && (next != outPos ==> Window(buf[inPos := b], next, outPos) == Window(buf, inPos, outPos) + [b])
  {
    NextIsModulo(inPos, |buf|);
    var next := Next(inPos, |buf|);
    var after := buf[inPos := b];
    if next != outPos && next == 0 {
      assert after[outPos..] == buf[outPos..inPos] + [b];
    } else if next != outPos && outPos <= inPos {
      assert after[outPos..next] == buf[outPos..inPos] + [b];
    } else if next != outPos {
      assert after[..next] == buf[..inPos] + [b] && after[outPos..] == buf[outPos..];
    }
  }

  lemma WindowPop(buf: seq<bv8>, inPos: nat, outPos: nat)
    requires inPos < |buf| && outPos < |buf|
    ensures var next := (outPos + 1) % |buf|;
            && next < |buf|
            && (inPos == outPos <==> Window(buf, inPos, outPos) == [])
            && (inPos != outPos ==> Window(buf, inPos, outPos) == [buf[outPos]] + Window(buf, inPos, next))
  {
    NextIsModulo(outPos, |buf|);
    var next := Next(outPos, |buf|);
    if outPos < inPos {
      assert buf[outPos..inPos] == [buf[outPos]] + buf[next..inPos];
    } else if inPos < outPos && next != 0 {
      assert buf[outPos..] == [buf[outPos]] + buf[next..];
      ConcatAssociative([buf[outPos]], buf[next..], buf[..inPos]);
    } else if inPos < outPos {
      assert buf[outPos..] == [buf[outPos]] && buf[..inPos] == buf[0..inPos];
    }
  }

  lemma ReceivedByte(line: Levels, rec: bv8, invert: bool)
    requires forall i :: 0 <= i < 8 ==> Bit(rec, i) == line[1..9][i]
    ensures (if invert then !rec else rec) == ByteOf(line, invert)
  {
    forall i | 0 <= i < 8
      ensures Bit(rec, i) == Bit(ByteOf(line, false), i)
    {
      ByteOfBits(line, false, i);
      assert line[1..9][i] == line[1 + i];
    }
    BitsDetermineByte(rec, ByteOf(line, false));
  }

  /** A byte that arrives at a full buffer is dropped. */
  function AfterPut(q: seq<bv8>, b: bv8, capacity: int): seq<bv8> {
    if |q| < capacity then q + [b] else q
  }

  class Port {
    const buffer: array<bv8>
    const invert: bool
    var inPos: nat
    var outPos: nat
    var overflow: bool

    ghost predicate Valid()
      reads this
    {
      inPos < buffer.Length && outPos < buffer.Length
    }

    ghost function Capacity(): int { buffer.Length - 1 }

    ghost function Contents(): (q: seq<bv8>)
      requires Valid()
      reads this, buffer
      ensures |q| <= Capacity()
    {
      Window(buffer[..], inPos, outPos)
    }

    /** sw_new */
    constructor (invert: bool, buffSize: nat)
      requires buffSize > 0
      ensures Valid() && fresh(buffer) && buffer.Length == buffSize && this.invert == invert
      ensures Contents() == [] && !overflow
    {
      buffer := new bv8[buffSize](_ => 0);
      this.invert := invert;
      inPos, outPos, overflow := 0, 0, false;
    }

    /** Its last part: store the byte unless the buffer is full. */
    method Put(b: bv8)
      requires Valid()
      modifies this`inPos, this`overflow, buffer
      ensures Valid() && Contents() == AfterPut(old(Contents()), b, Capacity())
      ensures overflow == (old(overflow) || |old(Contents())| == Capacity())
    {
      var next := (inPos + 1) % buffer.Length;
      WindowPush(buffer[..], inPos, outPos, b);
      if next != outPos {
        ghost var after := buffer[..][inPos := b];
        buffer[inPos] := b;
        assert buffer[..] == after;
        inPos := next;
      } else {
        overflow := true;
      }
    }

    /** sw_rx_handler, given the ten levels it samples. */
    method Receive(line: Levels)
      requires Valid()
      modifies this`inPos, this`overflow, buffer
      ensures Valid()
      ensures Contents() == if Framed(line) then AfterPut(old(Contents()), ByteOf(line, invert), Capacity())
                            else old(Contents())
      ensures overflow == (old(overflow) || (Framed(line) && |old(Contents())| == Capacity()))
    {
      if !line[0] {
        var rec := Sample(line[1..9]);
        if line[9] {
          ReceivedByte(line, rec, invert);
          Put(if invert then !rec else rec);
        }
      }
    }

    /** sw_read */
    method Read() returns (ch: int)
      requires Valid()
      modifies this`outPos
      ensures Valid()
      ensures old(Contents()) == [] ==> ch == -1 && Contents() == []
      ensures old(Contents()) != [] ==>
                ch == old(Contents())[0] as int && Contents() == old(Contents())[1..]
    {
      WindowPop(buffer[..], inPos, outPos);
      if inPos != outPos {
        ch := buffer[outPos] as int;
        outPos := (outPos + 1) % buffer.Length;
      } else {
        ch := -1;
      }
    }

    /** sw_any */
    method Any() returns (n: int)
      requires Valid()
      ensures n == |Contents()|
    {
      var avail := inPos as int - outPos as int;
      n := if avail < 0 then avail + buffer.Length else avail;
    }

    /** sw_peek */
    method Peek() returns (ch: int)
      requires Valid()
      ensures ch == if Contents() == [] then -1 else Contents()[0] as int
    {
      ch := if inPos != outPos then buffer[outPos] as int else -1;
    }

    /** sw_flush */
    method Flush()
      requires Valid()
      modifies this`inPos, this`outPos, this`overflow
      ensures Valid() && Contents() == [] && !overflow
    {
      inPos, outPos, overflow := 0, 0, false;
    }
  }

  function AfterAll(q: seq<bv8>, bytes: seq<bv8>, capacity: int): seq<bv8>
    decreases |bytes|
  {
    if bytes == [] then q else AfterAll(AfterPut(q, bytes[0], capacity), bytes[1..], capacity)
  }

  /** Of a burst the oldest bytes are kept, as many as fit. */
  lemma {:induction false} BurstKeepsOldest(q: seq<bv8>, bytes: seq<bv8>, capacity: int)
    requires |q| <= capacity
    ensures AfterAll(q, bytes, capacity) ==
            if |q + bytes| <= capacity then q + bytes else (q + bytes)[..capacity]
    decreases |bytes|
  {
    if bytes == [] {
      assert q + bytes == q;
    } else {
      BurstKeepsOldest(AfterPut(q, bytes[0], capacity), bytes[1..], capacity);
      if |q| < capacity {
        assert q + [bytes[0]] + bytes[1..] == q + bytes;
      } else {
        assert (q + bytes)[..capacity] == q == (q + bytes[1..])[..capacity];
      }
    }
  }

  datatype Op = Put(b: bv8) | Get

  function Apply(q: seq<bv8>, op: Op, capacity: int): seq<bv8> {
    match op
    case Put(b) => AfterPut(q, b, capacity)
    case Get => if q == [] then [] else q[1..]
  }

  function Run(ops: seq<Op>, capacity: int): seq<bv8> {
    if ops == [] then [] else Apply(Run(ops[..|ops| - 1], capacity), ops[|ops| - 1], capacity)
  }

  /** The byte that finds room, and the byte a read returns. */
  function KeptBy(q: seq<bv8>, op: Op, capacity: int): seq<bv8> {
    if op.Put? && |q| < capacity then [op.b] else []
  }

  function ReturnedBy(q: seq<bv8>, op: Op): seq<bv8> {
    if op.Get? && q != [] then [q[0]] else []
  }

  function Kept(ops: seq<Op>, capacity: int): seq<bv8> {
    if ops == [] then []
    else Kept(ops[..|ops| - 1], capacity) + KeptBy(Run(ops[..|ops| - 1], capacity), ops[|ops| - 1], capacity)
  }

  function Returned(ops: seq<Op>, capacity: int): seq<bv8> {
    if ops == [] then []
    else Returned(ops[..|ops| - 1], capacity) + ReturnedBy(Run(ops[..|ops| - 1], capacity), ops[|ops| - 1])
  }

  lemma OneOperation(q: seq<bv8>, op: Op, capacity: int)
    ensures q + KeptBy(q, op, capacity) == ReturnedBy(q, op) + Apply(q, op, capacity)
    ensures |q| <= capacity ==> |Apply(q, op, capacity)| <= capacity
  {
  }

  /** However puts and reads are interleaved, reads return the kept bytes in order: what is kept is what
      has been returned and what is still there. */
  lemma {:induction false} ReadsReturnKeptInOrder(ops: seq<Op>, capacity: int)
    ensures Kept(ops, capacity) == Returned(ops, capacity) + Run(ops, capacity)
    ensures capacity >= 0 ==> |Run(ops, capacity)| <= capacity
  {
    if ops != [] {
      var init, op := ops[..|ops| - 1], ops[|ops| - 1];
      ReadsReturnKeptInOrder(init, capacity);
      var q := Run(init, capacity);
      OneOperation(q, op, capacity);
      Conserve(Kept(init, capacity), Returned(init, capacity), q,
               KeptBy(q, op, capacity), ReturnedBy(q, op), Apply(q, op, capacity));
    }
  }
}
