/**
 The firmware update task: it asks which images are new, updates the slave, then the master, with
 bounded retries, and decides whether to restart.
 */
module OtaTask {

  /** The answer of CheckOtaRequired. */
  datatype Check = Check(gotImage: bool, required: bool)

  /** What the slave answers to the status requests after an update attempt. */
  datatype Status = Success | Fail

  datatype Event =
    | MasterChecked(check: Check)
    | SlaveChecked(check: Check)
    | SlaveUpdated(status: Status)
    | MasterUpdated(success: bool)

  datatype Ending = Restart | UpdateFailed | AlreadyLatest | DownloadFailed

  /** Everything OtaTask cannot influence. requested is the number of retries in the request, slaveStatus
      the slave's answer on each attempt; stray says that the link decoded a success frame which is not
      that answer, since the attempt before or, for attempt 0, at any earlier time. */
  datatype World = World(
    hasSlave: bool, requested: int,
    masterCheck: nat -> Check, slaveCheck: nat -> Check,
    stray: nat -> bool, slaveStatus: nat -> Status, masterSuccess: nat -> bool)

  const DEFAULT_RETRIES: int := 2
  const MAX_RETRIES: int := 5

  /** CMSUpdateFirmwareRequest.retries after the range check. */
  function Retries(requested: int): int {
    if requested < 0 || requested > MAX_RETRIES then MAX_RETRIES else requested
  }

  /** The number of checks a device can get before OtaTask gives up. */
  function CheckBudget(requested: int): nat {
    (if Retries(requested) > 0 then Retries(requested) else DEFAULT_RETRIES) + 1
  }

  /** How many turns a loop makes that stops at the first success but after limit turns at the latest. */
  function Turns(success: nat -> bool, limit: nat): (n: nat)
    ensures n <= limit && (limit > 0 ==> n > 0)
    ensures forall k :: 0 <= k < n - 1 ==> !success(k)
    ensures 0 < n < limit ==> success(n - 1)
  {
    TurnsFrom(success, 0, limit)
  }

  function TurnsFrom(success: nat -> bool, from: nat, limit: nat): (n: nat)
    requires from <= limit
    ensures from <= n <= limit && (limit > from ==> n > from)
    ensures forall k :: from <= k < n - 1 ==> !success(k)
    ensures from < n < limit ==> success(n - 1)
    decreases limit - from
  {
    if from == limit then from
    else if success(from) then from + 1
    else TurnsFrom(success, from + 1, limit)
  }

  lemma TurnsAre(success: nat -> bool, limit: nat, n: nat)
    requires 0 < n <= limit && (forall k :: 0 <= k < n - 1 ==> !success(k)) && (n == limit || success(n - 1))
    ensures Turns(success, limit) == n
  {
  }

  /** CheckOtaRequired, by device. */
  function CheckOf(w: World, forSlave: bool, k: nat): Check {
    if forSlave then w.slaveCheck(k) else w.masterCheck(k)
  }

  ghost function GotImage(w: World, forSlave: bool): nat -> bool {
    (k: nat) => CheckOf(w, forSlave, k).gotImage
  }

  /** The link's success flag when the outcome of attempt k is looked at; nothing lowers it. */
  ghost predicate FlagUp(w: World, k: nat) {
    w.stray(k) || w.slaveStatus(k) == Success || (k > 0 && FlagUp(w, k - 1))
  }

  /** An attempt counts as successful when the flag is up. */
  ghost function SlaveSucceeds(w: World): nat -> bool {
    (k: nat) => FlagUp(w, k)
  }

  /** The number of attempts for one device, after it got its image at the given check. */
  function UpdateBudget(requested: int, checks: nat): nat {
    if Retries(requested) > 0 then Retries(requested)
    else if checks <= 1 then DEFAULT_RETRIES else 1
  }

  /** How often each device is updated, and how the run ends. */
  datatype Updates = Updates(slave: nat, master: nat, ending: Ending)

  ghost function UpdatesOf(w: World, master: Check, slave: Check,
                           masterBudget: nat, slaveBudget: nat): Updates
  {
    var masterNeeded, slaveNeeded := master.gotImage && master.required, w.hasSlave && slave.gotImage && slave.required;
    if masterNeeded || slaveNeeded || !w.hasSlave then
      var slaveUpdates := if slaveNeeded then Turns(SlaveSucceeds(w), slaveBudget) else 0;
      var slaveDone := slaveUpdates > 0 && SlaveSucceeds(w)(slaveUpdates - 1);
      var masterAllowed := slaveDone || !w.hasSlave || (slave.gotImage && !slave.required);
      var masterUpdates := if masterNeeded && masterAllowed then Turns(w.masterSuccess, masterBudget) else 0;
      var masterDone := masterUpdates > 0 && w.masterSuccess(masterUpdates - 1);
      Updates(slaveUpdates, masterUpdates, if slaveDone || masterDone then Restart else UpdateFailed)
    else
      Updates(0, 0, if master.gotImage && slave.gotImage then AlreadyLatest else DownloadFailed)
  }

  datatype Course = Course(masterChecks: nat, slaveChecks: nat, updates: Updates)

  ghost function LastMasterCheck(w: World, c: Course): Check
    requires c.masterChecks > 0
  {
    w.masterCheck(c.masterChecks - 1)
  }

  /** A board without a slave keeps the initial status. */
  ghost function LastSlaveCheck(w: World, slaveChecks: nat): Check {
    if slaveChecks > 0 then w.slaveCheck(slaveChecks - 1) else Check(true, false)
  }

  ghost function CourseOf(w: World): (c: Course)
    ensures c.masterChecks > 0 && (w.hasSlave <==> c.slaveChecks > 0)
  {
    var masterChecks := Turns(GotImage(w, false), CheckBudget(w.requested));
    var slaveChecks := if w.hasSlave then Turns(GotImage(w, true), CheckBudget(w.requested)) else 0;
    Course(masterChecks, slaveChecks,
           UpdatesOf(w, w.masterCheck(masterChecks - 1), LastSlaveCheck(w, slaveChecks),
                     UpdateBudget(w.requested, masterChecks), UpdateBudget(w.requested, slaveChecks)))
  }

  /** The steps of a course, in order. */
  ghost function LogOf(w: World, c: Course): seq<Event> {
    MasterChecks(w, c.masterChecks) + SlaveChecks(w, c.slaveChecks)
    + SlaveUpdates(w, c.updates.slave) + MasterUpdates(w, c.updates.master)
  }

  ghost function MasterChecks(w: World, n: nat): seq<Event> {
    seq(n, i requires 0 <= i => MasterChecked(w.masterCheck(i)))
  }

  ghost function SlaveChecks(w: World, n: nat): seq<Event> {
    seq(n, i requires 0 <= i => SlaveChecked(w.slaveCheck(i)))
  }

  ghost function CheckLog(w: World, forSlave: bool, n: nat): seq<Event> {
    if forSlave then SlaveChecks(w, n) else MasterChecks(w, n)
  }

  lemma CheckLogStep(w: World, forSlave: bool, n: nat)
    ensures CheckLog(w, forSlave, 0) == []
    ensures CheckLog(w, forSlave, n + 1) ==
            CheckLog(w, forSlave, n) + [if forSlave then SlaveChecked(w.slaveCheck(n)) else MasterChecked(w.masterCheck(n))]
  {
  }

  ghost function SlaveUpdates(w: World, n: nat): seq<Event> {
    seq(n, i requires 0 <= i => SlaveUpdated(w.slaveStatus(i)))
  }

  ghost function MasterUpdates(w: World, n: nat): seq<Event> {
    seq(n, i requires 0 <= i => MasterUpdated(w.masterSuccess(i)))
  }

  class Task {
    var log: seq<Event>
    /** The flags of the slave link; nothing in OtaTask lowers them. */
    var successReceived: bool
    var failReceived: bool

    constructor (successReceived: bool, failReceived: bool)
      ensures log == [] && this.successReceived == successReceived && this.failReceived == failReceived
    {
      log := [];
      this.successReceived, this.failReceived := successReceived, failReceived;
    }

    /** The two loops that ask for an image description, with one retry less each time. */
    method CheckDevice(w: World, forSlave: bool, retriesBefore: int)
      returns (result: Check, retries: int, ghost n: nat)
      requires retriesBefore > 0
      modifies `log
      ensures n == Turns(GotImage(w, forSlave), retriesBefore + 1) && n > 0
      ensures log == old(log) + CheckLog(w, forSlave, n)
      ensures result == CheckOf(w, forSlave, n - 1)
      ensures retries == retriesBefore - (n - 1)
    {
      retries := retriesBefore;
      result := CheckOf(w, forSlave, 0);
      CheckLogStep(w, forSlave, 0);
      assert GotImage(w, forSlave)(0) == result.gotImage;
      log := log + [if forSlave then SlaveChecked(result) else MasterChecked(result)];
      var k := 1;
      while !result.gotImage && retries > 0
        invariant 1 <= k && retries == retriesBefore - (k - 1) && retries >= 0
        invariant result == CheckOf(w, forSlave, k - 1) && GotImage(w, forSlave)(k - 1) == result.gotImage
        invariant forall j :: 0 <= j < k - 1 ==> !GotImage(w, forSlave)(j)
        invariant log == old(log) + CheckLog(w, forSlave, k)
      {
        retries := retries - 1;
        result := CheckOf(w, forSlave, k);
        CheckLogStep(w, forSlave, k);
        assert GotImage(w, forSlave)(k) == result.gotImage;
        log := log + [if forSlave then SlaveChecked(result) else MasterChecked(result)];
        k := k + 1;
      }
      n := k;
      TurnsAre(GotImage(w, forSlave), retriesBefore + 1, n);
    }

    /** The slave's update loop. */
    method UpdateSlave(w: World, retriesBefore: int) returns (success: bool, ghost n: nat)
      requires successReceived ==> w.stray(0)
      modifies this
      ensures n == Turns(SlaveSucceeds(w), if retriesBefore > 1 then retriesBefore else 1) && n > 0
      ensures log == old(log) + SlaveUpdates(w, n)
      ensures success == SlaveSucceeds(w)(n - 1)
    {
      var retries := retriesBefore;
      success := AttemptSlave(w.stray(0), w.slaveStatus(0));
      retries := retries - 1;
      var k := 1;
      while !success && retries > 0
        invariant 1 <= k && retries == retriesBefore - k && (k > 1 ==> retries >= 0)
        invariant log == old(log) + SlaveUpdates(w, k)
        invariant success == successReceived == SlaveSucceeds(w)(k - 1)
        invariant forall j :: 0 <= j < k - 1 ==> !SlaveSucceeds(w)(j)
      {
        success := AttemptSlave(w.stray(k), w.slaveStatus(k));
        retries := retries - 1;
        k := k + 1;
      }
      n := k;
      TurnsAre(SlaveSucceeds(w), if retriesBefore > 1 then retriesBefore else 1, n);
    }

    /** One transfer and the wait for its status, which is answered. */
    method AttemptSlave(stray: bool, status: Status) returns (success: bool)
      modifies this
      ensures log == old(log) + [SlaveUpdated(status)]
      ensures successReceived == (old(successReceived) || stray || status == Success)
      ensures success == successReceived
    {
      if stray {
        successReceived := true;
      }
      if status == Success {
        successReceived := true;
      } else {
        failReceived := true;
      }
      log := log + [SlaveUpdated(status)];
      if successReceived {
        success := true;
      } else if failReceived {
        success := false;
      } else {
        success := false;
      }
    }

    /** The master's update loop. */
    method UpdateMaster(w: World, retriesBefore: int) returns (success: bool, ghost n: nat)
      modifies `log
      ensures n == Turns(w.masterSuccess, if retriesBefore > 1 then retriesBefore else 1) && n > 0
      ensures log == old(log) + MasterUpdates(w, n)
      ensures success == w.masterSuccess(n - 1)
    {
      var retries := retriesBefore - 1;
      success := w.masterSuccess(0);
      log := log + [MasterUpdated(success)];
      var k := 1;
      while !success && retries > 0
        invariant 1 <= k && retries == retriesBefore - k && (k > 1 ==> retries >= 0)
        invariant log == old(log) + MasterUpdates(w, k)
        invariant success == w.masterSuccess(k - 1) && forall j :: 0 <= j < k - 1 ==> !w.masterSuccess(j)
      {
        success := w.masterSuccess(k);
        log := log + [MasterUpdated(success)];
        retries := retries - 1;
        k := k + 1;
      }
      n := k;
      TurnsAre(w.masterSuccess, if retriesBefore > 1 then retriesBefore else 1, n);
    }

    /** Both check loops, and the retries left for the updates. */
    method CheckDevices(w: World)
      returns (master: Check, slave: Check, retries: int, slaveRetries: int, ghost masterChecks: nat, ghost slaveChecks: nat)
      modifies `log
      ensures masterChecks == Turns(GotImage(w, false), CheckBudget(w.requested)) && masterChecks > 0
      ensures slaveChecks == if w.hasSlave then Turns(GotImage(w, true), CheckBudget(w.requested)) else 0
      ensures master == w.masterCheck(masterChecks - 1) && slave == LastSlaveCheck(w, slaveChecks)
      ensures (if retries > 1 then retries else 1) == UpdateBudget(w.requested, masterChecks)
      ensures (if slaveRetries > 1 then slaveRetries else 1) == UpdateBudget(w.requested, slaveChecks)
      ensures log == old(log) + MasterChecks(w, masterChecks) + SlaveChecks(w, slaveChecks)
    {
      var requested := Retries(w.requested);
      var initial := if requested > 0 then requested else DEFAULT_RETRIES;
      master, retries, masterChecks := CheckDevice(w, false, initial);
      slave, slaveRetries, slaveChecks := Check(true, false), initial, 0;
      if w.hasSlave {
        slave, slaveRetries, slaveChecks := CheckDevice(w, true, initial);
      }
      if requested > 0 {
        retries, slaveRetries := requested, requested;
      }
    }

    /** The decision after the checks. */
    method Update(w: World, master: Check, slave: Check, retries: int, slaveRetries: int) returns (ending: Ending)
      requires successReceived ==> w.stray(0)
      modifies this
      ensures var u := UpdatesOf(w, master, slave,
                                 if retries > 1 then retries else 1, if slaveRetries > 1 then slaveRetries else 1);
              ending == u.ending && log == old(log) + SlaveUpdates(w, u.slave) + MasterUpdates(w, u.master)
    {
      ghost var slaveUpdates, masterUpdates := 0, 0;
      var slaveDone, masterDone := false, false;
      if (master.gotImage && master.required) || (!w.hasSlave || (w.hasSlave && slave.gotImage && slave.required)) {
        if w.hasSlave && slave.gotImage && slave.required {
          slaveDone, slaveUpdates := UpdateSlave(w, slaveRetries);
        }
        if (w.hasSlave && slave.gotImage && slave.required && slaveDone)
           || (w.hasSlave && slave.gotImage && !slave.required) || !w.hasSlave {
          if master.gotImage && master.required {
            masterDone, masterUpdates := UpdateMaster(w, retries);
          }
        }
        ending := if (w.hasSlave && slaveDone) || masterDone then Restart else UpdateFailed;
      } else if master.gotImage && !master.required && (!w.hasSlave || (w.hasSlave && slave.gotImage && !slave.required)) {
        ending := AlreadyLatest;
      } else {
        ending := DownloadFailed;
      }
      assert log == old(log) + SlaveUpdates(w, slaveUpdates) + MasterUpdates(w, masterUpdates);
    }

    /** OtaTask; a flag that is up already is a stray frame to the first attempt. */
    method Run(w: World) returns (ending: Ending)
      requires log == [] && (successReceived ==> w.stray(0))
      modifies this
      ensures ending == CourseOf(w).updates.ending
      ensures log == LogOf(w, CourseOf(w))
    {
      var master, slave, retries, slaveRetries;
      ghost var masterChecks, slaveChecks;
      master, slave, retries, slaveRetries, masterChecks, slaveChecks := CheckDevices(w);
      ending := Update(w, master, slave, retries, slaveRetries);
      ghost var u := UpdatesOf(w, master, slave,
                               UpdateBudget(w.requested, masterChecks), UpdateBudget(w.requested, slaveChecks));
      assert CourseOf(w) == Course(masterChecks, slaveChecks, u);
      assert [] + MasterChecks(w, masterChecks) == MasterChecks(w, masterChecks);
    }
  }
}
