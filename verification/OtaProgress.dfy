/** The progress the update task reports while both images are written. */
module OtaProgress {

  /** firmwareUpdateProgress after `done` of `size` bytes for the slave; both images share the scale. */
  function SlaveProgress(done: nat, size: nat, both: bool): real
    requires size > 0
  {
    var percentage := done as real * 100.0 / size as real;
    if both then percentage / 2.0 else percentage
  }

  function MasterProgress(done: nat, size: nat, both: bool): real
    requires size > 0
  {
    var percentage := done as real * 100.0 / size as real;
    if both then 50.0 + percentage / 2.0 else percentage
  }

  /** The scale: a share of the bytes is the same share of the whole, or of the slave's half below and the
      master's half above 50. */
  lemma ProgressScale(done: nat, size: nat)
    requires size > 0
    ensures SlaveProgress(done, size, false) * size as real == 100.0 * done as real
    ensures SlaveProgress(done, size, true) * size as real == 50.0 * done as real
    ensures MasterProgress(done, size, false) * size as real == 100.0 * done as real
    ensures (MasterProgress(done, size, true) - 50.0) * size as real == 50.0 * done as real
  {
  }

  ghost predicate Growing(counts: seq<nat>) {
    forall i, j :: 0 <= i <= j < |counts| ==> counts[i] <= counts[j]
  }

  lemma PercentageGrows(a: nat, b: nat, size: nat)
    requires a <= b && size > 0
    ensures a as real * 100.0 / size as real <= b as real * 100.0 / size as real
  {
    var x, y, n := a as real * 100.0, b as real * 100.0, size as real;
    assert (y - x) / n >= 0.0;
    assert y / n == x / n + (y - x) / n;
  }

  /** The percentage is within 0 to 100 exactly when no more bytes than announced have come. */
  lemma PercentageBound(done: nat, size: nat)
    requires size > 0
    ensures 0.0 <= done as real * 100.0 / size as real
    ensures done as real * 100.0 / size as real <= 100.0 <==> done <= size
  {
    var p, n := done as real * 100.0 / size as real, size as real;
    assert p * n == done as real * 100.0;
    assert p <= 100.0 ==> p * n <= 100.0 * n;
    if done <= size {
      PercentageGrows(done, size, size);
      assert size as real * 100.0 / n == 100.0;
    }
  }

  /** The values reported over a slave phase and a master phase, each in one go. */
  function Reported(slave: seq<nat>, slaveSize: nat, master: seq<nat>, masterSize: nat): seq<real>
    requires slaveSize > 0 && masterSize > 0
  {
    seq(|slave|, i requires 0 <= i < |slave| => SlaveProgress(slave[i], slaveSize, true))
    + seq(|master|, i requires 0 <= i < |master| => MasterProgress(master[i], masterSize, true))
  }

  /** With growing byte counts within the announced sizes, progress stays in 0..100, at most 50 in the
      slave's half and at least 50 in the master's, and never falls. */
  lemma ProgressNeverFalls(slave: seq<nat>, slaveSize: nat, master: seq<nat>, masterSize: nat)
    requires slaveSize > 0 && masterSize > 0 && Growing(slave) && Growing(master)
    requires forall i :: 0 <= i < |slave| ==> slave[i] <= slaveSize
    requires forall i :: 0 <= i < |master| ==> master[i] <= masterSize
    ensures var p := Reported(slave, slaveSize, master, masterSize);
            && (forall i :: 0 <= i < |p| ==> if i < |slave| then 0.0 <= p[i] <= 50.0 else 50.0 <= p[i] <= 100.0)
            && (forall i, j :: 0 <= i <= j < |p| ==> p[i] <= p[j])
  {
    var p := Reported(slave, slaveSize, master, masterSize);
    forall i | 0 <= i < |p|
      ensures if i < |slave| then 0.0 <= p[i] <= 50.0 else 50.0 <= p[i] <= 100.0
    {
      if i < |slave| {
        PercentageBound(slave[i], slaveSize);
      } else {
        PercentageBound(master[i - |slave|], masterSize);
      }
    }
    forall i, j | 0 <= i <= j < |p|
      ensures p[i] <= p[j]
    {
      if j < |slave| {
        PercentageGrows(slave[i], slave[j], slaveSize);
      } else if i >= |slave| {
        PercentageGrows(master[i - |slave|], master[j - |slave|], masterSize);
      }
    }
  }

  /** One report: for which device, on which attempt, after how many bytes. */
  datatype Report = Report(master: bool, attempt: nat, done: nat)

  /** The slave's reports come before the master's, attempts follow each other, and bytes only grow within
      an attempt; with one device to update all reports are its own. */
  ghost predicate Orderly(reports: seq<Report>, slaveSize: nat, masterSize: nat, both: bool) {
    && (forall r :: r in reports ==> r.done <= if r.master then masterSize else slaveSize)
    && forall i :: 0 <= i < |reports| - 1 ==> Follows(reports[i], reports[i + 1], both)
  }

  ghost predicate Follows(r: Report, next: Report, both: bool) {
    if r.master == next.master then r.attempt < next.attempt || (r.attempt == next.attempt && r.done <= next.done)
    else both && next.master
  }

  function Shown(r: Report, slaveSize: nat, masterSize: nat, both: bool): real
    requires slaveSize > 0 && masterSize > 0
  {
    if r.master then MasterProgress(r.done, masterSize, both) else SlaveProgress(r.done, slaveSize, both)
  }

  lemma FewerIsLess(a: nat, b: nat, size: nat)
    requires size > 0
    ensures a as real * 100.0 / size as real < b as real * 100.0 / size as real <==> a < b
  {
    var p, q, n := a as real * 100.0 / size as real, b as real * 100.0 / size as real, size as real;
    assert p * n == a as real * 100.0 && q * n == b as real * 100.0;
    if a < b {
      PercentageGrows(a, b, size);
    } else {
      PercentageGrows(b, a, size);
    }
  }

  /** Over any number of attempts, progress falls exactly where a further attempt for the same device
      starts with fewer bytes than the one before had reached. */
  lemma ProgressFallsIff(reports: seq<Report>, slaveSize: nat, masterSize: nat, both: bool, i: nat)
    requires slaveSize > 0 && masterSize > 0 && Orderly(reports, slaveSize, masterSize, both) && i + 1 < |reports|
    ensures var r, next := reports[i], reports[i + 1];
            Shown(next, slaveSize, masterSize, both) < Shown(r, slaveSize, masterSize, both)
            <==> r.master == next.master && r.attempt < next.attempt && next.done < r.done
  {
    var r, next := reports[i], reports[i + 1];
    assert Follows(r, next, both);
    if r.master == next.master {
      FewerIsLess(next.done, r.done, if r.master then masterSize else slaveSize);
    } else {
      PercentageBound(r.done, slaveSize);
      PercentageBound(next.done, masterSize);
    }
  }
}
