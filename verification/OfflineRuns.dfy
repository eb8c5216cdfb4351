/** What the offline store does over whole runs of writes and reads on any connectors. */
module OfflineRuns {
  import opened Basics
  import opened OfflineStore

  datatype Op = Write(conn: nat, record: Record) | Read(conn: nat)

  ghost predicate InRange(qs: seq<seq<Record>>, ops: seq<Op>) {
    forall op :: op in ops ==> op.conn < |qs|
  }

  /** The effect of Store.Write and Store.Read on the queues. */
  function Apply(qs: seq<seq<Record>>, op: Op): (r: seq<seq<Record>>)
    requires op.conn < |qs|
    ensures |r| == |qs|
  {
    qs[op.conn := match op
                  case Write(c, record) => AfterWrite(qs[c], record)
                  case Read(c) => AfterRead(qs[c])]
  }

  ghost function Run(qs: seq<seq<Record>>, ops: seq<Op>): (r: seq<seq<Record>>)
    requires InRange(qs, ops)
    ensures |r| == |qs|
  {
    if ops == [] then qs else Apply(Run(qs, ops[..|ops| - 1]), ops[|ops| - 1])
  }

  ghost function WrittenBy(op: Op, c: nat): seq<Record> {
    if op.Write? && op.conn == c then [op.record] else []
  }

  ghost function Written(ops: seq<Op>, c: nat): seq<Record> {
    if ops == [] then [] else Written(ops[..|ops| - 1], c) + WrittenBy(ops[|ops| - 1], c)
  }

  /** The operation drops the oldest record of connector c to make room. */
  ghost predicate Overflows(qs: seq<seq<Record>>, op: Op, c: nat)
    requires c < |qs|
  {
    op.Write? && op.conn == c && |qs[c]| >= 100
  }

  /** The record of c that the operation hands to the caller, if any. */
  ghost function HandedBy(qs: seq<seq<Record>>, op: Op, c: nat): seq<Record>
    requires c < |qs|
  {
    if op == Read(c) && qs[c] != [] then [qs[c][0]] else []
  }

  /** The record of c that the operation removes, handing it over or dropping it. */
  ghost function RemovedBy(qs: seq<seq<Record>>, op: Op, c: nat): seq<Record>
    requires c < |qs|
  {
    if Overflows(qs, op, c) then [qs[c][0]] else HandedBy(qs, op, c)
  }

  ghost function Handed(qs: seq<seq<Record>>, ops: seq<Op>, c: nat): seq<Record>
    requires InRange(qs, ops) && c < |qs|
  {
    if ops == [] then []
    else
      var init := ops[..|ops| - 1];
      Handed(qs, init, c) + HandedBy(Run(qs, init), ops[|ops| - 1], c)
  }

  ghost function Removed(qs: seq<seq<Record>>, ops: seq<Op>, c: nat): seq<Record>
    requires InRange(qs, ops) && c < |qs|
  {
    if ops == [] then []
    else
      var init := ops[..|ops| - 1];
      Removed(qs, init, c) + RemovedBy(Run(qs, init), ops[|ops| - 1], c)
  }

  lemma OneOperation(qs: seq<seq<Record>>, op: Op, c: nat)
    requires op.conn < |qs| && c < |qs| && |qs[c]| <= MAX_OFFLINE
    ensures qs[c] + WrittenBy(op, c) == RemovedBy(qs, op, c) + Apply(qs, op)[c]
    ensures |Apply(qs, op)[c]| <= MAX_OFFLINE
  {
    var q := qs[c];
    assert q != [] ==> q == [q[0]] + q[1..];
  }

  /** First in, first out: what was there and what was written is what has been removed and what is
      left, in the same order, and never more than 100 are left. */
  lemma {:induction false} FirstInFirstOut(qs: seq<seq<Record>>, ops: seq<Op>, c: nat)
    requires InRange(qs, ops) && c < |qs| && |qs[c]| <= MAX_OFFLINE
    ensures qs[c] + Written(ops, c) == Removed(qs, ops, c) + Run(qs, ops)[c]
    ensures |Run(qs, ops)[c]| <= 100
  {
    if ops != [] {
      var init, op := ops[..|ops| - 1], ops[|ops| - 1];
      FirstInFirstOut(qs, init, c);
      var now := Run(qs, init);
      OneOperation(now, op, c);
      assert Run(qs, ops) == Apply(now, op);
      ConcatAssociative(qs[c], Written(init, c), WrittenBy(op, c));
      Conserve(qs[c] + Written(init, c), Removed(qs, init, c), now[c],
               WrittenBy(op, c), RemovedBy(now, op, c), Apply(now, op)[c]);
    }
  }

  /** Operation k of the run finds the queue full. */
  ghost predicate FullAt(qs: seq<seq<Record>>, ops: seq<Op>, c: nat, k: nat)
    requires InRange(qs, ops) && c < |qs| && k < |ops|
  {
    Overflows(Run(qs, ops[..k]), ops[k], c)
  }

  ghost predicate NeverFull(qs: seq<seq<Record>>, ops: seq<Op>, c: nat)
    requires InRange(qs, ops) && c < |qs|
  {
    forall k: nat :: k < |ops| ==> !FullAt(qs, ops, c, k)
  }

  lemma NeverFullStep(qs: seq<seq<Record>>, ops: seq<Op>, c: nat)
    requires InRange(qs, ops) && c < |qs| && ops != []
    ensures NeverFull(qs, ops, c) <==> NeverFull(qs, ops[..|ops| - 1], c) && !FullAt(qs, ops, c, |ops| - 1)
  {
    var init := ops[..|ops| - 1];
    forall k: nat | k < |init|
      ensures FullAt(qs, ops, c, k) <==> FullAt(qs, init, c, k)
    {
      assert init[..k] == ops[..k];
    }
  }

  lemma AppendEqual(s: seq<Record>, t: seq<Record>, x: seq<Record>, y: seq<Record>)
    requires |s| <= |t| && (x == y || (x == [] && |y| == 1))
    ensures s + x == t + y <==> s == t && x == y
  {
    if s + x == t + y && x == y {
      assert s == (s + x)[..|s|] && t == (t + y)[..|t|];
    }
  }

  lemma {:induction false} HandedIffNeverFull(qs: seq<seq<Record>>, ops: seq<Op>, c: nat)
    requires InRange(qs, ops) && c < |qs|
    ensures |Handed(qs, ops, c)| <= |Removed(qs, ops, c)|
    ensures Handed(qs, ops, c) == Removed(qs, ops, c) <==> NeverFull(qs, ops, c)
  {
    if ops != [] {
      var init, op := ops[..|ops| - 1], ops[|ops| - 1];
      HandedIffNeverFull(qs, init, c);
      NeverFullStep(qs, ops, c);
      var now := Run(qs, init);
      AppendEqual(Handed(qs, init, c), Removed(qs, init, c), HandedBy(now, op, c), RemovedBy(now, op, c));
    }
  }

  /** What readers have been handed, followed by what is left, is what was there and what was written,
      nothing missing and in order, exactly when no write ever found the queue full. */
  lemma NothingLostIffNeverFull(qs: seq<seq<Record>>, ops: seq<Op>, c: nat)
    requires InRange(qs, ops) && c < |qs| && |qs[c]| <= MAX_OFFLINE
    ensures qs[c] + Written(ops, c) == Handed(qs, ops, c) + Run(qs, ops)[c] <==> NeverFull(qs, ops, c)
  {
    FirstInFirstOut(qs, ops, c);
    HandedIffNeverFull(qs, ops, c);
    AppendEqual(Handed(qs, ops, c), Removed(qs, ops, c), Run(qs, ops)[c], Run(qs, ops)[c]);
  }

  ghost function Only(ops: seq<Op>, c: nat): (r: seq<Op>)
    ensures forall op :: op in r ==> op in ops
  {
    if ops == [] then []
    else Only(ops[..|ops| - 1], c) + if ops[|ops| - 1].conn == c then [ops[|ops| - 1]] else []
  }

  /** Connectors never disturb each other: a queue ends up, and hands over, the same as if the
      operations on the other connectors had not happened. */
  lemma {:induction false} ConnectorsIndependent(qs: seq<seq<Record>>, ops: seq<Op>, c: nat)
    requires InRange(qs, ops) && c < |qs|
    ensures InRange(qs, Only(ops, c))
    ensures Run(qs, ops)[c] == Run(qs, Only(ops, c))[c]
    ensures Handed(qs, ops, c) == Handed(qs, Only(ops, c), c)
  {
    if ops != [] {
      var init, op := ops[..|ops| - 1], ops[|ops| - 1];
      ConnectorsIndependent(qs, init, c);
      var only := Only(ops, c);
      if op.conn == c {
        assert only[..|only| - 1] == Only(init, c) && only[|only| - 1] == op;
      } else {
        assert only == Only(init, c);
      }
    }
  }
}
