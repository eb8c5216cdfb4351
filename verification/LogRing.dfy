/**
 Rotating log files: a ring of eight files stands in for one unbounded log. The log is a sequence of
 any kind of character, so that characters may also carry their position in the log.
 */
module LogRing {
  import opened Basics

  const MAX_LOG_FILES: nat := 8
  const MAX_LOG_FILE_SIZE: nat := 350 * 1024
  /** A file this long is closed and the next one started. */
  const ROTATE_AT: nat := MAX_LOG_FILE_SIZE - 200

  ghost predicate IsPrefix<T>(s: seq<T>, t: seq<T>) {
    |s| <= |t| && t[..|s|] == s
  }

  ghost predicate IsSuffix<T>(s: seq<T>, t: seq<T>) {
    |s| <= |t| && t[|t| - |s|..] == s
  }

  lemma SuffixExtended<T>(s: seq<T>, t: seq<T>, more: seq<T>)
    requires IsSuffix(s, t)
    ensures IsSuffix(s + more, t + more)
  {
    assert (t + more)[|t| - |s|..] == t[|t| - |s|..] + more;
  }

  lemma SuffixAfterDrop<T>(s: seq<T>, rest: seq<T>, t: seq<T>)
    requires IsSuffix(s + rest, t)
    ensures IsSuffix(rest, t)
  {
    assert t[|t| - |rest|..] == t[|t| - |s + rest|..][|s|..];
  }

  /** The file after the current one, around the ring. */
  function Next(n: nat): nat {
    if n + 1 >= MAX_LOG_FILES then 0 else n + 1
  }

  /** The files and the number of the current one. */
  datatype AnyRing<T> = Ring(files: seq<seq<T>>, current: nat)

  ghost predicate IsRing<T>(g: AnyRing<T>) {
    |g.files| == MAX_LOG_FILES && g.current < MAX_LOG_FILES
  }

  /** The files in the order they are uploaded: after file n, then up to it. */
  function UploadOrder<T>(files: seq<seq<T>>, n: nat): seq<seq<T>>
    requires n < |files|
  {
    files[n + 1..] + files[..n + 1]
  }

  function Kept<T>(g: AnyRing<T>): seq<T>
    requires IsRing(g)
  {
    Flatten(UploadOrder(g.files, g.current))
  }

  function Appended<T>(g: AnyRing<T>, item: seq<T>): (r: AnyRing<T>)
    requires IsRing(g)
    ensures IsRing(r)
  {
    g.(files := g.files[g.current := g.files[g.current] + item])
  }

  function Rotated<T>(g: AnyRing<T>): (r: AnyRing<T>)
    requires IsRing(g)
    ensures IsRing(r)
  {
    Ring(g.files[Next(g.current) := []], Next(g.current))
  }

  /** The item fills the current file, and rotation is not held back. */
  predicate Rotates<T>(g: AnyRing<T>, item: seq<T>, held: bool)
    requires IsRing(g)
  {
    |g.files[g.current] + item| >= ROTATE_AT && !held
  }

  /** One item is printed. */
  function AfterItem<T>(g: AnyRing<T>, item: seq<T>, held: bool): (r: AnyRing<T>)
    requires IsRing(g)
    ensures IsRing(r)
  {
    if Rotates(g, item, held) then Rotated(Appended(g, item)) else Appended(g, item)
  }

  lemma OldestFirst<T>(g: AnyRing<T>)
    requires IsRing(g)
    ensures var order := UploadOrder(g.files, g.current);
            && order == [g.files[Next(g.current)]] + order[1..]
            && UploadOrder(Rotated(g).files, Rotated(g).current) == order[1..] + [[]]
  {
    var files, n, m := g.files, g.current, Next(g.current);
    var after := files[m := []];
    if m == 0 {
      assert files[n + 1..] == [] && files[..n + 1] == files && after[..1] == [[]];
      assert UploadOrder(files, n) == files;
    } else {
      assert UploadOrder(files, n)[1..] == files[m + 1..] + files[..m];
      assert after[..m + 1] == files[..m] + [[]];
    }
  }

  function AfterItems<T>(g: AnyRing<T>, items: seq<seq<T>>, held: bool): (r: AnyRing<T>)
    requires IsRing(g)
    ensures IsRing(r)
  {
    if items == [] then g else AfterItem(AfterItems(g, items[..|items| - 1], held), items[|items| - 1], held)
  }

  /** Starting the next file drops exactly the oldest part of what is kept. */
  lemma RotationDropsOldest<T>(g: AnyRing<T>)
    requires IsRing(g)
    ensures Kept(g) == g.files[Next(g.current)] + Kept(Rotated(g))
  {
    var m := Next(g.current);
    var order := UploadOrder(g.files, g.current);
    OldestFirst(g);
    FlattenConcat([order[0]], order[1..]);
    FlattenSingle(order[0]);
    FlattenConcat(order[1..], [[]]);
    FlattenSingle<T>([]);
  }

  /** What is appended to the current file is appended to what is kept. */
  lemma AppendingAppends<T>(g: AnyRing<T>, item: seq<T>)
    requires IsRing(g)
    ensures Kept(Appended(g, item)) == Kept(g) + item
  {
    var head, last := g.files[g.current + 1..] + g.files[..g.current], g.files[g.current];
    assert UploadOrder(g.files, g.current) == head + [last];
    assert UploadOrder(Appended(g, item).files, g.current) == head + [last + item];
    FlattenConcat(head, [last]);
    FlattenConcat(head, [last + item]);
    FlattenSingle(last);
    FlattenSingle(last + item);
    ConcatAssociative(Flatten(head), last, item);
  }

  lemma FlattenNext<T>(files: seq<seq<T>>, from: nat, to: nat)
    requires from <= to < |files|
    ensures Flatten(files[from..to + 1]) == Flatten(files[from..to]) + files[to]
  {
    assert files[from..to + 1][..to - from] == files[from..to];
  }

  lemma {:induction false} FullFilesLength<T>(files: seq<seq<T>>)
    requires forall k :: 0 <= k < |files| ==> |files[k]| >= ROTATE_AT
    ensures |Flatten(files)| >= ROTATE_AT * |files|
  {
    if files != [] {
      FullFilesLength(files[..|files| - 1]);
    }
  }

  lemma {:induction false} EmptyFiles<T>(files: seq<seq<T>>)
    requires forall k :: 0 <= k < |files| ==> files[k] == []
    ensures Flatten(files) == []
  {
    if files != [] {
      EmptyFiles(files[..|files| - 1]);
    }
  }

  /** Either nothing has been thrown away and the files after the current one are unused, or all the
      other files are full; kept is what the files hold. */
  ghost predicate RingKeeps<T>(g: AnyRing<T>, kept: seq<T>, logged: seq<T>)
    requires IsRing(g)
  {
    && (forall k :: 0 <= k < g.current ==> |g.files[k]| >= ROTATE_AT)
    && (|| (kept == logged && forall k :: g.current < k < MAX_LOG_FILES ==> g.files[k] == [])
        || (IsSuffix(kept, logged) && forall k :: g.current < k < MAX_LOG_FILES ==> |g.files[k]| >= ROTATE_AT))
  }

  ghost predicate Keeps<T>(g: AnyRing<T>, logged: seq<T>) {
    IsRing(g) && RingKeeps(g, Kept(g), logged)
  }

  lemma KeepsAppended<T>(g: AnyRing<T>, kept: seq<T>, logged: seq<T>, item: seq<T>)
    requires IsRing(g) && RingKeeps(g, kept, logged)
    ensures RingKeeps(Appended(g, item), kept + item, logged + item)
  {
    if IsSuffix(kept, logged) {
      SuffixExtended(kept, logged, item);
    }
  }

  lemma KeepsRotated<T>(g: AnyRing<T>, kept: seq<T>, logged: seq<T>)
    requires IsRing(g) && |g.files[g.current]| >= ROTATE_AT
    requires RingKeeps(g, g.files[Next(g.current)] + kept, logged)
    ensures RingKeeps(Rotated(g), kept, logged)
  {
    var dropped := g.files[Next(g.current)];
    if IsSuffix(dropped + kept, logged) {
      SuffixAfterDrop(dropped, kept, logged);
    }
    assert dropped == [] ==> dropped + kept == kept;
  }

  /** Printing keeps the ring in order. */
  lemma KeepsAfterItem<T>(g: AnyRing<T>, logged: seq<T>, item: seq<T>, held: bool)
    requires Keeps(g, logged)
    ensures Keeps(AfterItem(g, item, held), logged + item)
  {
    AppendingAppends(g, item);
    KeepsAppended(g, Kept(g), logged, item);
    var longer := Appended(g, item);
    if Rotates(g, item, held) {
      RotationDropsOldest(longer);
      KeepsRotated(longer, Kept(Rotated(longer)), logged + item);
    }
  }

  /** As long as rotation is not held back, every file stays shorter than the limit and one item more, and
      the current one shorter than the limit. */
  ghost predicate Bounded<T>(g: AnyRing<T>, longest: nat) {
    && IsRing(g) && |g.files[g.current]| < 350 * 1024 - 200
    && forall k :: 0 <= k < 8 ==> |g.files[k]| < 350 * 1024 - 200 + longest
  }

  lemma {:induction false} FilesStayBounded<T>(g: AnyRing<T>, items: seq<seq<T>>, longest: nat)
    requires Bounded(g, longest) && forall i :: 0 <= i < |items| ==> |items[i]| <= longest
    ensures Bounded(AfterItems(g, items, false), longest)
  {
    if items != [] {
      FilesStayBounded(g, items[..|items| - 1], longest);
    }
  }

  /** While it is held back, only the current file grows. */
  lemma {:induction false} HeldPrinting<T>(g: AnyRing<T>, items: seq<seq<T>>)
    requires IsRing(g)
    ensures var h := AfterItems(g, items, true);
            && h.current == g.current && h.files[g.current] == g.files[g.current] + Flatten(items)
            && forall k :: 0 <= k < 8 && k != g.current ==> h.files[k] == g.files[k]
  {
    if items == [] {
      assert g.files[g.current] + [] == g.files[g.current];
    } else {
      HeldPrinting(g, items[..|items| - 1]);
      ConcatAssociative(g.files[g.current], Flatten(items[..|items| - 1]), items[|items| - 1]);
    }
  }

  /** However long the current file has become, the next item after the hold moves on to an emptied one. */
  lemma ReleaseRotates<T>(g: AnyRing<T>, item: seq<T>)
    requires IsRing(g) && |g.files[g.current]| >= 350 * 1024 - 200
    ensures var h := AfterItem(g, item, false);
            h.current == (g.current + 1) % 8 && h.files[h.current] == []
  {
  }

  /** The end of the log up to some point, all of it or at least seven full files' worth. */
  ghost predicate LongSuffix<T>(text: seq<T>, logged: seq<T>) {
    IsSuffix(text, logged) && (text == logged || |text| >= 7 * ROTATE_AT)
  }

  /** The files in upload order end where the log ends, and hold all of it or at least seven full files'
      worth. */
  lemma KeptIsLongSuffix<T>(g: AnyRing<T>, logged: seq<T>)
    requires Keeps(g, logged)
    ensures LongSuffix(Kept(g), logged)
  {
    if Kept(g) != logged {
      var closed := g.files[g.current + 1..] + g.files[..g.current];
      FullFilesLength(closed);
      FlattenConcat(closed, [g.files[g.current]]);
      assert UploadOrder(g.files, g.current) == closed + [g.files[g.current]];
    }
  }

  /** What has happened since an upload began: the ring, everything logged, the number of rotations, and
      what was added to the file that was current. */
  datatype Course<T> = Course(ring: AnyRing<T>, logged: seq<T>, rotations: nat, added: seq<T>)

  function Began<T>(g: AnyRing<T>, logged: seq<T>): Course<T> {
    Course(g, logged, 0, [])
  }

  function CourseStep<T>(c: Course<T>, item: seq<T>, held: bool): (r: Course<T>)
    requires IsRing(c.ring)
    ensures IsRing(r.ring)
  {
    Course(AfterItem(c.ring, item, held), c.logged + item,
           c.rotations + (if Rotates(c.ring, item, held) then 1 else 0),
           if c.rotations == 0 then c.added + item else c.added)
  }

  function CourseAfter<T>(c: Course<T>, items: seq<seq<T>>, held: bool): (r: Course<T>)
    requires IsRing(c.ring)
    ensures IsRing(r.ring)
  {
    if items == [] then c
    else CourseStep(CourseAfter(c, items[..|items| - 1], held), items[|items| - 1], held)
  }

  /** After j portions of printing. Portion 0 comes before rotation is held back, portion 1 while it is,
      before the first file is read; each later one comes before another file. */
  function CourseAt<T>(c: Course<T>, prints: seq<seq<seq<T>>>, j: nat): (r: Course<T>)
    requires IsRing(c.ring) && j <= |prints|
    ensures IsRing(r.ring)
  {
    if j == 0 then c else CourseAfter(CourseAt(c, prints, j - 1), prints[j - 1], j == 2)
  }

  /** The file at place k of an upload that starts after file n. */
  function FileAt(k: nat, n: nat): nat
    requires k < MAX_LOG_FILES && n < MAX_LOG_FILES
  {
    if n + 1 + k < MAX_LOG_FILES then n + 1 + k else n + 1 + k - MAX_LOG_FILES
  }

  /** What the upload finds in the k-th file. */
  function FoundAt<T>(c: Course<T>, prints: seq<seq<seq<T>>>, k: nat): seq<T>
    requires IsRing(c.ring) && k < MAX_LOG_FILES && k + 2 <= |prints|
  {
    CourseAt(c, prints, k + 2).ring.files[FileAt(k, c.ring.current)]
  }

  /** What it finds in the first n files. */
  function ReadFiles<T>(c: Course<T>, prints: seq<seq<seq<T>>>, n: nat): (r: seq<seq<T>>)
    requires IsRing(c.ring) && n <= MAX_LOG_FILES && |prints| == MAX_LOG_FILES + 1
    ensures |r| == n
  {
    seq(n, k requires 0 <= k < n => FoundAt(c, prints, k))
  }

  lemma CourseNext<T>(c: Course<T>, prints: seq<seq<seq<T>>>, k: nat)
    requires IsRing(c.ring) && k + 1 < |prints|
    ensures CourseAt(c, prints, k + 2) == CourseAfter(CourseAt(c, prints, k + 1), prints[k + 1], k == 0)
  {
  }

  lemma ReadNext<T>(c: Course<T>, prints: seq<seq<seq<T>>>, k: nat)
    requires IsRing(c.ring) && k < MAX_LOG_FILES && |prints| == MAX_LOG_FILES + 1
    ensures Flatten(ReadFiles(c, prints, k + 1)) == Flatten(ReadFiles(c, prints, k)) + FoundAt(c, prints, k)
  {
    var read, found := ReadFiles(c, prints, k), FoundAt(c, prints, k);
    assert ReadFiles(c, prints, k + 1) == read + [found];
    FlattenConcat(read, [found]);
    FlattenSingle(found);
  }

  class Printer<T> {
    const files: array<seq<T>>
    var logFileNo: nat
    var currentFileSize: nat
    var uploadingFirstLogFile: bool
    /** Everything ever logged. */
    ghost var logged: seq<T>

    ghost predicate Valid()
      reads this, files
    {
      && files.Length == MAX_LOG_FILES && logFileNo < MAX_LOG_FILES
      && currentFileSize <= |files[logFileNo]| && Keeps(Now(), logged)
    }

    ghost function Now(): AnyRing<T>
      reads this, files
    {
      Ring(files[..], logFileNo)
    }

    constructor ()
      ensures Valid() && fresh(files) && logged == [] && !uploadingFirstLogFile
    {
      files := new seq<T>[MAX_LOG_FILES](_ => []);
      logFileNo, currentFileSize, uploadingFirstLogFile := 0, 0, false;
      logged := [];
      new;
      EmptyFiles(UploadOrder(files[..], 0));
    }

    /** Close the current file and start the next one empty. */
    method Rotate()
      requires files.Length == MAX_LOG_FILES && logFileNo < MAX_LOG_FILES
      modifies this`logFileNo, this`currentFileSize, files
      ensures Now() == Rotated(old(Now())) && currentFileSize == 0
    {
      logFileNo := logFileNo + 1;
      if logFileNo >= MAX_LOG_FILES {
        logFileNo := 0;
      }
      currentFileSize := 0;
      files[logFileNo] := [];
    }

    /** One item from the ring buffer: append it and rotate when the file is long enough. */
    method Print(item: seq<T>)
      requires Valid()
      modifies this, files
      ensures Valid() && logged == old(logged) + item && uploadingFirstLogFile == old(uploadingFirstLogFile)
      ensures Now() == AfterItem(old(Now()), item, uploadingFirstLogFile)
      ensures var n, full := old(logFileNo), |old(files[logFileNo])| + |item| >= 350 * 1024 - 200;
              && logFileNo == (if full && !uploadingFirstLogFile then (n + 1) % 8 else n)
              && files[n] == old(files[n]) + item && (logFileNo != n ==> files[logFileNo] == [])
              && forall k :: 0 <= k < 8 && k != n && k != logFileNo ==> files[k] == old(files[k])
    {
      KeepsAfterItem(Now(), logged, item, uploadingFirstLogFile);
      files[logFileNo] := files[logFileNo] + item;
      currentFileSize := |files[logFileNo]|;
      logged := logged + item;
      assert Now() == Appended(old(Now()), item);
      if currentFileSize >= ROTATE_AT && !uploadingFirstLogFile {
        Rotate();
      }
    }

    /** After a restart the same file is opened for appending, its size not yet known. */
    method Reboot()
      requires Valid()
      modifies this
      ensures Valid() && logged == old(logged) && Now() == old(Now())
    {
      currentFileSize := 0;
      uploadingFirstLogFile := false;
    }

    /** The printer has gone from the start of an upload to here. */
    ghost predicate At(c: Course<T>)
      reads this, files
    {
      Valid() && Now() == c.ring && logged == c.logged
    }

    method PrintAll(items: seq<seq<T>>, ghost c: Course<T>)
      requires At(c)
      modifies this, files
      ensures At(CourseAfter(c, items, uploadingFirstLogFile))
      ensures uploadingFirstLogFile == old(uploadingFirstLogFile)
    {
      for i := 0 to |items|
        invariant At(CourseAfter(c, items[..i], uploadingFirstLogFile))
        invariant uploadingFirstLogFile == old(uploadingFirstLogFile)
      {
        assert items[..i + 1][..i] == items[..i];
        Print(items[i]);
      }
      assert items[..|items|] == items;
    }

    /** k files have been read. */
    ghost predicate Sending(c: Course<T>, prints: seq<seq<seq<T>>>, k: nat, text: seq<T>)
      reads this, files
    {
      && IsRing(c.ring) && |prints| == MAX_LOG_FILES + 1 && k <= MAX_LOG_FILES
      && At(CourseAt(c, prints, k + 1)) && (uploadingFirstLogFile <==> k == 0)
      && text == Flatten(ReadFiles(c, prints, k))
    }

    /** One turn of the loops of uploadLogs: more is printed, then a file is read and appended. */
    method SendFile(i: nat, items: seq<seq<T>>, text: seq<T>, ghost c: Course<T>, ghost prints: seq<seq<seq<T>>>,
                    ghost k: nat)
      returns (longer: seq<T>)
      requires Sending(c, prints, k, text) && k < MAX_LOG_FILES
      requires i == FileAt(k, c.ring.current) && items == prints[k + 1]
      modifies this, files
      ensures Sending(c, prints, k + 1, longer)
    {
      CourseNext(c, prints, k);
      ReadNext(c, prints, k);
      PrintAll(items, CourseAt(c, prints, k + 1));
      longer := text + files[i];
      uploadingFirstLogFile := false;
    }

    /** The first loop of uploadLogs: the files after n. */
    method SendAfter(n: nat, prints: seq<seq<seq<T>>>, ghost c: Course<T>) returns (text: seq<T>)
      requires Sending(c, prints, 0, []) && n == c.ring.current
      modifies this, files
      ensures Sending(c, prints, MAX_LOG_FILES - 1 - n, text)
    {
      text := [];
      ghost var k: nat := 0;
      for i := n + 1 to MAX_LOG_FILES
        invariant Sending(c, prints, k, text) && k == i - n - 1
      {
        assert FileAt(k, n) == i;
        text := SendFile(i, prints[i - n], text, c, prints, k);
        k := k + 1;
      }
    }

    /** The second one: the files up to n. */
    method SendUpTo(n: nat, prints: seq<seq<seq<T>>>, before: seq<T>, ghost c: Course<T>) returns (text: seq<T>)
      requires IsRing(c.ring) && n == c.ring.current && Sending(c, prints, MAX_LOG_FILES - 1 - n, before)
      modifies this, files
      ensures Sending(c, prints, MAX_LOG_FILES, text)
    {
      text := before;
      for i := 0 to n + 1
        invariant Sending(c, prints, i + MAX_LOG_FILES - 1 - n, text)
      {
        text := SendFrom(i, n, prints, text, c);
      }
    }

    method SendFrom(i: nat, n: nat, prints: seq<seq<seq<T>>>, text: seq<T>, ghost c: Course<T>) returns (longer: seq<T>)
      requires IsRing(c.ring) && i <= n == c.ring.current && Sending(c, prints, i + MAX_LOG_FILES - 1 - n, text)
      modifies this, files
      ensures Sending(c, prints, i + MAX_LOG_FILES - n, longer)
    {
      ghost var k: nat := i + MAX_LOG_FILES - 1 - n;
      assert FileAt(k, n) == i;
      longer := SendFile(i, prints[i + MAX_LOG_FILES - n], text, c, prints, k);
    }

    /** uploadLogs: note the current file, hold rotation back until the first file is read, and read the
        others while the printer goes on, portion by portion. */
    method Upload(prints: seq<seq<seq<T>>>) returns (text: seq<T>)
      requires Valid() && !uploadingFirstLogFile && |prints| == MAX_LOG_FILES + 1
      modifies this, files
      ensures Valid() && !uploadingFirstLogFile
      ensures var c := Began(old(Now()), old(logged));
              && Now() == CourseAt(c, prints, |prints|).ring
              && logged == CourseAt(c, prints, |prints|).logged
              && text == Flatten(ReadFiles(c, prints, MAX_LOG_FILES))
    {
      ghost var c := Began(Now(), logged);
      var n := logFileNo;
      PrintAll(prints[0], c);
      assert CourseAt(c, prints, 1) == CourseAfter(CourseAt(c, prints, 0), prints[0], false);
      uploadingFirstLogFile := true;
      text := SendAfter(n, prints, c);
      text := SendUpTo(n, prints, text, c);
    }
  }
}
