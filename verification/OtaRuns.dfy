/** What every run of the update task guarantees. */
module OtaRuns {
  import opened OtaTask

  /** The number of checks and attempts per device never exceeds the budget, which for R requested
      retries is R + 1 checks and R attempts; a device whose checks all fail gets exactly that many and
      is never updated. */
  lemma StepsAreBounded(w: World)
    ensures var c := CourseOf(w);
            && c.masterChecks <= CheckBudget(w.requested) && c.slaveChecks <= CheckBudget(w.requested)
            && (1 <= w.requested <= MAX_RETRIES ==>
                  && c.masterChecks <= w.requested + 1 && c.slaveChecks <= w.requested + 1
                  && c.updates.master <= w.requested && c.updates.slave <= w.requested)
            && (w.requested == 0 ==> c.updates.master <= DEFAULT_RETRIES && c.updates.slave <= DEFAULT_RETRIES)
            && ((forall k: nat :: !w.masterCheck(k).gotImage) ==>
                  c.masterChecks == CheckBudget(w.requested) && c.updates.master == 0)
            && (w.hasSlave && (forall k: nat :: !w.slaveCheck(k).gotImage) ==>
                  c.slaveChecks == CheckBudget(w.requested) && c.updates.slave == 0)
  {
    var c := CourseOf(w);
    if forall k: nat :: !w.masterCheck(k).gotImage {
      assert forall k: nat :: !GotImage(w, false)(k);
    }
    if forall k: nat :: !w.slaveCheck(k).gotImage {
      assert forall k: nat :: !GotImage(w, true)(k);
    }
  }

  /** The retries that count: those requested, or 5 when the number is negative or above 5. */
  ghost predicate Counts(requested: int, retries: nat) {
    if 0 <= requested <= 5 then retries == requested else retries == 5
  }

  /** A device that keeps failing is checked once more often than retries count, or three times if none do. */
  lemma FailingChecks(w: World, retries: nat)
    requires Counts(w.requested, retries)
    ensures var checks := if retries == 0 then 3 else retries + 1;
            && ((forall k: nat :: !w.masterCheck(k).gotImage) ==> CourseOf(w).masterChecks == checks)
            && (w.hasSlave && (forall k: nat :: !w.slaveCheck(k).gotImage) ==> CourseOf(w).slaveChecks == checks)
  {
    StepsAreBounded(w);
  }

  /** The first answer that describes the image ends the checks. */
  lemma FirstDescriptionEndsChecks(w: World)
    ensures w.masterCheck(0).gotImage ==> CourseOf(w).masterChecks == 1
    ensures w.hasSlave && w.slaveCheck(0).gotImage ==> CourseOf(w).slaveChecks == 1
  {
    assert GotImage(w, false)(0) == w.masterCheck(0).gotImage && GotImage(w, true)(0) == w.slaveCheck(0).gotImage;
  }

  /** A new slave image that never takes is tried as often as retries count, or twice, or once when
      retries were used up on the checks; so is a new master image that may be written. */
  lemma FailingUpdates(w: World, retries: nat)
    requires Counts(w.requested, retries)
    ensures var c := CourseOf(w);
            && (SlaveNew(w) && (forall k: nat :: !FlagUp(w, k)) ==>
                  c.updates.slave == if retries > 0 then retries else if c.slaveChecks == 1 then 2 else 1)
            && (c.updates.master > 0 && (forall k: nat :: !w.masterSuccess(k)) ==>
                  c.updates.master == if retries > 0 then retries else if c.masterChecks == 1 then 2 else 1)
  {
    if forall k: nat :: !FlagUp(w, k) {
      assert forall k: nat :: !SlaveSucceeds(w)(k);
    }
  }

  /** How a run ends when nothing succeeds: without a slave, or with a new image, the update has failed;
      else it says that all is current, or that it could not find out. */
  lemma EndingWithoutSuccess(w: World)
    requires CourseOf(w).updates.ending != Restart
    ensures var ending := CourseOf(w).updates.ending;
            var master, slave := LastMasterCheck(w, CourseOf(w)), LastSlaveCheck(w, CourseOf(w).slaveChecks);
            if !w.hasSlave || master == Check(true, true) || slave == Check(true, true) then ending == UpdateFailed
            else if master == Check(true, false) && slave == Check(true, false) then ending == AlreadyLatest
            else ending == DownloadFailed
  {
  }

  /** Before position i the slave was found up to date, or new and then updated successfully. */
  ghost predicate SlaveSettledBefore(log: seq<Event>, i: nat)
    requires i <= |log|
  {
    exists j :: 0 <= j < i && log[j].SlaveChecked? && log[j].check.gotImage &&
      (log[j].check.required ==> exists k :: j < k < i && log[k] == SlaveUpdated(Success))
  }

  ghost predicate MasterWaitsForSlave(w: World, log: seq<Event>) {
    w.hasSlave ==> forall i :: 0 <= i < |log| && log[i].MasterUpdated? ==> SlaveSettledBefore(log, i)
  }

  lemma LogShape(w: World, c: Course, i: nat)
    requires i < |LogOf(w, c)|
    ensures var log := LogOf(w, c);
            var m, s, u := c.masterChecks, c.slaveChecks, c.updates.slave;
            log[i] == if i < m then MasterChecked(w.masterCheck(i))
                      else if i < m + s then SlaveChecked(w.slaveCheck(i - m))
                      else if i < m + s + u then SlaveUpdated(w.slaveStatus(i - m - s))
                      else MasterUpdated(w.masterSuccess(i - m - s - u))
  {
  }

  /** The slave's image was described and is new. */
  ghost predicate SlaveNew(w: World) {
    w.hasSlave && LastSlaveCheck(w, CourseOf(w).slaveChecks) == Check(true, true)
  }

  ghost predicate MasterNew(w: World) {
    LastMasterCheck(w, CourseOf(w)) == Check(true, true)
  }

  /** A stray success frame comes in time for an attempt up to which the slave has answered failure. */
  ghost predicate Misled(w: World) {
    MisledWithin(w, UpdateBudget(w.requested, CourseOf(w).slaveChecks))
  }

  ghost predicate MisledWithin(w: World, budget: nat) {
    exists k: nat :: k < budget && StrayWhileFailing(w, k)
  }

  ghost predicate StrayWhileFailing(w: World, k: nat) {
    w.stray(k) && forall j: nat :: j <= k ==> w.slaveStatus(j) == Fail
  }

  /** With u attempts made, the last one passes a failure off as a success exactly when OtaTask is
      misled; the ones before it failed. */
  lemma LastAttempt(w: World, budget: nat, u: nat)
    requires u == Turns(SlaveSucceeds(w), budget) && budget > 0
    ensures u > 0 && (FlagUp(w, u - 1) && w.slaveStatus(u - 1) == Fail <==> MisledWithin(w, budget))
    ensures forall k: nat :: k < u - 1 ==> w.slaveStatus(k) == Fail
  {
    forall k: nat | k < u - 1
      ensures !FlagUp(w, k) && w.slaveStatus(k) == Fail
    {
      assert !SlaveSucceeds(w)(k);
    }
    assert u < budget ==> SlaveSucceeds(w)(u - 1);
    if FlagUp(w, u - 1) && w.slaveStatus(u - 1) == Fail {
      assert u > 1 ==> !FlagUp(w, u - 2);
      assert StrayWhileFailing(w, u - 1);
    }
    if MisledWithin(w, budget) {
      var k: nat :| k < budget && StrayWhileFailing(w, k);
      assert SlaveSucceeds(w)(k);
      assert k >= u - 1;
      assert w.slaveStatus(u - 1) == Fail;
    }
  }

  lemma SlaveCourse(w: World)
    requires SlaveNew(w)
    ensures var c := CourseOf(w);
            var budget := UpdateBudget(w.requested, c.slaveChecks);
            budget > 0 && c.updates.slave == Turns(SlaveSucceeds(w), budget)
  {
  }

  lemma MasterCourse(w: World)
    ensures var u := CourseOf(w).updates;
            u.master > 0 <==> MasterNew(w) && (SlaveNew(w) ==> FlagUp(w, u.slave - 1)) &&
                              (w.hasSlave ==> LastSlaveCheck(w, CourseOf(w).slaveChecks).gotImage)
  {
    if SlaveNew(w) {
      SlaveCourse(w);
      assert SlaveSucceeds(w)(CourseOf(w).updates.slave - 1) <==> FlagUp(w, CourseOf(w).updates.slave - 1);
    }
  }

  /** The master's image is written only after the slave is up to date or has just been updated, unless
      both images are new and OtaTask is misled: exactly then it is written after a failure. */
  lemma MasterAfterSlaveIff(w: World)
    ensures MasterWaitsForSlave(w, LogOf(w, CourseOf(w))) <==> !(MasterNew(w) && SlaveNew(w) && Misled(w))
  {
    var c := CourseOf(w);
    MasterCourse(w);
    if SlaveNew(w) {
      SlaveCourse(w);
      LastAttempt(w, UpdateBudget(w.requested, c.slaveChecks), c.updates.slave);
    }
    if c.updates.master > 0 && w.hasSlave {
      SettledIff(w, c);
    } else {
      forall i: nat | i < |LogOf(w, c)|
        ensures w.hasSlave ==> !LogOf(w, c)[i].MasterUpdated?
      {
        LogShape(w, c, i);
      }
    }
  }

  /** For a course that goes on to the master. */
  lemma SettledIff(w: World, c: Course)
    requires c == CourseOf(w) && w.hasSlave && c.updates.master > 0
    requires SlaveNew(w) ==> c.updates.slave > 0 && forall k: nat :: k < c.updates.slave - 1 ==> w.slaveStatus(k) == Fail
    ensures MasterWaitsForSlave(w, LogOf(w, c)) <==> (SlaveNew(w) ==> w.slaveStatus(c.updates.slave - 1) == Success)
  {
    MasterCourse(w);
    SlaveChecksBefore(w);
    if SlaveNew(w) && w.slaveStatus(c.updates.slave - 1) == Fail {
      NotSettled(w, c);
    } else {
      Settled(w, c);
    }
  }

  lemma SlaveChecksBefore(w: World)
    ensures forall k: nat :: k < CourseOf(w).slaveChecks - 1 ==> !w.slaveCheck(k).gotImage
  {
    forall k: nat | k < CourseOf(w).slaveChecks - 1
      ensures !w.slaveCheck(k).gotImage
    {
      assert !GotImage(w, true)(k);
    }
  }

  lemma Settled(w: World, c: Course)
    requires c.slaveChecks > 0
    requires var check := w.slaveCheck(c.slaveChecks - 1);
             check.gotImage && (check.required ==> c.updates.slave > 0 && w.slaveStatus(c.updates.slave - 1) == Success)
    ensures MasterWaitsForSlave(w, LogOf(w, c))
  {
    var log := LogOf(w, c);
    var m, s, u := c.masterChecks, c.slaveChecks, c.updates.slave;
    LogShape(w, c, m + s - 1);
    if w.slaveCheck(s - 1).required {
      LogShape(w, c, m + s + u - 1);
    }
    forall i | 0 <= i < |log| && log[i].MasterUpdated?
      ensures SlaveSettledBefore(log, i)
    {
      LogShape(w, c, i);
      assert log[m + s - 1] == SlaveChecked(w.slaveCheck(s - 1));
    }
  }

  lemma NotSettled(w: World, c: Course)
    requires w.hasSlave && c.updates.master > 0 && c.slaveChecks > 0 && w.slaveCheck(c.slaveChecks - 1).required
    requires forall k: nat :: k < c.slaveChecks - 1 ==> !w.slaveCheck(k).gotImage
    requires forall k: nat :: k < c.updates.slave ==> w.slaveStatus(k) == Fail
    ensures !MasterWaitsForSlave(w, LogOf(w, c))
  {
    var log := LogOf(w, c);
    var i := c.masterChecks + c.slaveChecks + c.updates.slave;
    LogShape(w, c, i);
    forall j: nat | j < i
      ensures log[j] != SlaveUpdated(Success)
      ensures log[j].SlaveChecked? && log[j].check.gotImage ==> log[j].check.required
    {
      LogShape(w, c, j);
    }
    assert !SlaveSettledBefore(log, i);
  }

  /** It does happen with the flag down at the start: the slave fails, a success frame is decoded before the
      second attempt is looked at, and the slave fails again. */
  lemma StrayFrameBetweenAttempts()
    ensures var isNew := (k: nat) => Check(true, true);
            var w := World(true, 2, isNew, isNew, (k: nat) => k == 1, (k: nat) => Fail, (k: nat) => true);
            && LogOf(w, CourseOf(w)) == [MasterChecked(Check(true, true)), SlaveChecked(Check(true, true)),
                                         SlaveUpdated(Fail), SlaveUpdated(Fail), MasterUpdated(true)]
            && !MasterWaitsForSlave(w, LogOf(w, CourseOf(w)))
  {
    var isNew := (k: nat) => Check(true, true);
    var w := World(true, 2, isNew, isNew, (k: nat) => k == 1, (k: nat) => Fail, (k: nat) => true);
    TurnsAre(GotImage(w, false), CheckBudget(2), 1);
    TurnsAre(GotImage(w, true), CheckBudget(2), 1);
    assert !FlagUp(w, 0) && FlagUp(w, 1);
    assert !SlaveSucceeds(w)(0) && SlaveSucceeds(w)(1);
    TurnsAre(SlaveSucceeds(w), 2, 2);
    TurnsAre(w.masterSuccess, 2, 1);
    assert StrayWhileFailing(w, 1);
    MasterAfterSlaveIff(w);
  }

  ghost predicate SomeSuccess(log: seq<Event>) {
    exists i :: 0 <= i < |log| && (log[i] == SlaveUpdated(Success) || log[i] == MasterUpdated(true))
  }

  /** The last attempt for the slave succeeded. */
  ghost predicate SlaveDone(w: World, c: Course) {
    c.updates.slave > 0 && w.slaveStatus(c.updates.slave - 1) == Success
  }

  ghost predicate MasterDone(w: World, c: Course) {
    c.updates.master > 0 && w.masterSuccess(c.updates.master - 1)
  }

  lemma RestartIffDone(w: World)
    ensures var c := CourseOf(w);
            && (c.updates.ending == Restart <==> (SlaveNew(w) && FlagUp(w, c.updates.slave - 1)) || MasterDone(w, c))
            && (c.updates.slave > 0 <==> SlaveNew(w))
            && forall k: nat :: k < c.updates.master - 1 ==> !w.masterSuccess(k)
  {
    if SlaveNew(w) {
      SlaveCourse(w);
      assert SlaveSucceeds(w)(CourseOf(w).updates.slave - 1) <==> FlagUp(w, CourseOf(w).updates.slave - 1);
    }
  }

  lemma SuccessIffDone(w: World, c: Course)
    requires forall k: nat :: k < c.updates.slave - 1 ==> w.slaveStatus(k) != Success
    requires forall k: nat :: k < c.updates.master - 1 ==> !w.masterSuccess(k)
    ensures SomeSuccess(LogOf(w, c)) <==> SlaveDone(w, c) || MasterDone(w, c)
  {
    var log := LogOf(w, c);
    var u := c.masterChecks + c.slaveChecks + c.updates.slave;
    if SlaveDone(w, c) {
      LogShape(w, c, u - 1);
    }
    if MasterDone(w, c) {
      LogShape(w, c, u + c.updates.master - 1);
    }
    if SomeSuccess(log) {
      var i :| 0 <= i < |log| && (log[i] == SlaveUpdated(Success) || log[i] == MasterUpdated(true));
      LogShape(w, c, i);
    }
  }

  /** The charger restarts exactly when some update succeeded or a stray frame was taken for one. */
  lemma RestartIff(w: World)
    ensures var c := CourseOf(w);
            c.updates.ending == Restart <==> SomeSuccess(LogOf(w, c)) || (SlaveNew(w) && Misled(w))
  {
    var c := CourseOf(w);
    MasterCourse(w);
    if SlaveNew(w) {
      SlaveCourse(w);
      LastAttempt(w, UpdateBudget(w.requested, c.slaveChecks), c.updates.slave);
      assert SlaveSucceeds(w)(c.updates.slave - 1) <==> FlagUp(w, c.updates.slave - 1);
    }
    RestartIffDone(w);
    SuccessIffDone(w, c);
  }

  /** Every image was described and none is new. */
  ghost predicate NothingNew(w: World, c: Course)
    requires c.masterChecks > 0
  {
    && LastMasterCheck(w, c) == Check(true, false)
    && LastSlaveCheck(w, c.slaveChecks) == Check(true, false)
  }

  /** A charger with nothing to update says so exactly when it has a slave: without one OtaTask always
      takes the update branch and ends in failure. */
  lemma AlreadyLatestIffSlave(w: World)
    ensures var c := CourseOf(w);
            && (c.updates.ending == AlreadyLatest <==> w.hasSlave && NothingNew(w, c))
            && (!w.hasSlave && NothingNew(w, c) ==> c.updates == Updates(0, 0, UpdateFailed))
  {
  }
}
