/**
 Uploading the log while it is being written: exactly when the upload holds what was kept at its start
 and goes on with what was logged next.
 */
module LogUpload {
  import opened Basics
  import opened LogRing

  /** Place of file j in the upload that starts after file n. */
  function Place(j: nat, n: nat): int {
    if j > n then j - n - 1 else j + MAX_LOG_FILES - 1 - n
  }

  lemma PlaceOfUpdate<T>(files: seq<seq<T>>, n: nat, j: nat, text: seq<T>)
    requires |files| == MAX_LOG_FILES && n < MAX_LOG_FILES && j < MAX_LOG_FILES
    ensures 0 <= Place(j, n) < MAX_LOG_FILES && files[j] == UploadOrder(files, n)[Place(j, n)]
    ensures UploadOrder(files[j := text], n) == UploadOrder(files, n)[Place(j, n) := text]
    ensures Place(Next(j), n) == if Place(j, n) == MAX_LOG_FILES - 1 then 0 else Place(j, n) + 1
  {
  }

  /** The files of a course, in the order of the upload that began with g. */
  function Places<T>(g: AnyRing<T>, c: Course<T>): (r: seq<seq<T>>)
    requires IsRing(g) && IsRing(c.ring)
    ensures |r| == MAX_LOG_FILES
  {
    UploadOrder(c.ring.files, g.current)
  }

  /** The text comes from the log after its first part. */
  ghost predicate Later<T>(text: seq<T>, first: seq<T>, all: seq<T>)
    requires |first| <= |all|
  {
    forall x :: x in text ==> x in all[|first|..]
  }

  lemma LaterExtended<T>(text: seq<T>, first: seq<T>, all: seq<T>, item: seq<T>)
    requires |first| <= |all| && Later(text, first, all)
    ensures Later(text, first, all + item) && Later(text + item, first, all + item)
  {
    assert (all + item)[|first|..] == all[|first|..] + item;
  }

  /** After r rotations the places from r on hold what they held at the start, the last one with what was
      added to it. The places before r have been emptied, and what they hold was logged after that. */
  ghost predicate PlaceTracked<T>(g: AnyRing<T>, logged: seq<T>, c: Course<T>, k: nat)
    requires IsRing(g) && IsRing(c.ring) && k < MAX_LOG_FILES && |logged + c.added| <= |c.logged|
  {
    if k < c.rotations then Later(Places(g, c)[k], logged + c.added, c.logged)
    else if k < MAX_LOG_FILES - 1 then Places(g, c)[k] == UploadOrder(g.files, g.current)[k]
    else Places(g, c)[k] == g.files[g.current] + c.added
  }

  ghost predicate Tracked<T>(g: AnyRing<T>, logged: seq<T>, c: Course<T>) {
    && IsRing(g) && IsRing(c.ring)
    && IsPrefix(logged + c.added, c.logged) && (c.rotations == 0 ==> logged + c.added == c.logged)
    && (c.rotations > 0 ==> g.files[g.current] + c.added != [])
    && (c.rotations <= MAX_LOG_FILES ==>
          Place(c.ring.current, g.current) == if c.rotations == 0 then MAX_LOG_FILES - 1 else c.rotations - 1)
    && forall k: nat :: k < MAX_LOG_FILES ==> PlaceTracked(g, logged, c, k)
  }

  function WithItem<T>(c: Course<T>, item: seq<T>): Course<T>
    requires IsRing(c.ring)
  {
    Course(Appended(c.ring, item), c.logged + item, c.rotations, if c.rotations == 0 then c.added + item else c.added)
  }

  lemma TrackedAppended<T>(g: AnyRing<T>, logged: seq<T>, c: Course<T>, item: seq<T>)
    requires Tracked(g, logged, c)
    ensures Tracked(g, logged, WithItem(c, item))
  {
    var n := c.ring.current;
    PlaceOfUpdate(c.ring.files, g.current, n, c.ring.files[n] + item);
    ConcatAssociative(logged, c.added, item);
    forall k: nat | k < MAX_LOG_FILES
      ensures PlaceTracked(g, logged, WithItem(c, item), k)
    {
      assert PlaceTracked(g, logged, c, k);
      if k < c.rotations {
        LaterExtended(Places(g, c)[k], logged + c.added, c.logged, item);
      } else {
        ConcatAssociative(g.files[g.current], c.added, item);
      }
    }
  }

  lemma TrackedRotated<T>(g: AnyRing<T>, logged: seq<T>, c: Course<T>)
    requires Tracked(g, logged, c) && |c.ring.files[c.ring.current]| >= ROTATE_AT
    ensures Tracked(g, logged, Course(Rotated(c.ring), c.logged, c.rotations + 1, c.added))
  {
    var after := Course(Rotated(c.ring), c.logged, c.rotations + 1, c.added);
    PlaceOfUpdate(c.ring.files, g.current, c.ring.current, []);
    PlaceOfUpdate(c.ring.files, g.current, Next(c.ring.current), []);
    assert PlaceTracked(g, logged, c, MAX_LOG_FILES - 1);
    forall k: nat | k < MAX_LOG_FILES
      ensures PlaceTracked(g, logged, after, k)
    {
      assert PlaceTracked(g, logged, c, k);
    }
  }

  /** A later moment of the same course. */
  ghost predicate Onward<T>(c: Course<T>, d: Course<T>) {
    IsPrefix(c.logged, d.logged) && c.rotations <= d.rotations && (c.rotations > 0 ==> c.added == d.added)
  }

  lemma TrackedStep<T>(g: AnyRing<T>, logged: seq<T>, c: Course<T>, item: seq<T>, held: bool)
    requires Tracked(g, logged, c)
    ensures Tracked(g, logged, CourseStep(c, item, held))
  {
    TrackedAppended(g, logged, c, item);
    if Rotates(c.ring, item, held) {
      TrackedRotated(g, logged, WithItem(c, item));
    }
  }

  lemma StepOnward<T>(b: Course<T>, c: Course<T>, item: seq<T>, held: bool)
    requires Onward(b, c) && IsRing(c.ring)
    ensures Onward(b, CourseStep(c, item, held))
  {
  }

  lemma {:induction false} TrackedAfter<T>(g: AnyRing<T>, logged: seq<T>, c: Course<T>, items: seq<seq<T>>, held: bool)
    requires Tracked(g, logged, c)
    ensures Tracked(g, logged, CourseAfter(c, items, held))
    ensures Onward(c, CourseAfter(c, items, held))
  {
    if items != [] {
      var init := items[..|items| - 1];
      TrackedAfter(g, logged, c, init, held);
      TrackedStep(g, logged, CourseAfter(c, init, held), items[|items| - 1], held);
      StepOnward(c, CourseAfter(c, init, held), items[|items| - 1], held);
    }
  }

  lemma TrackedBegin<T>(g: AnyRing<T>, logged: seq<T>)
    requires IsRing(g)
    ensures Tracked(g, logged, Began(g, logged))
  {
    assert logged + [] == logged && g.files[g.current] + [] == g.files[g.current];
    PlaceOfUpdate(g.files, g.current, g.current, []);
  }

  lemma {:induction false} TrackedAt<T>(g: AnyRing<T>, logged: seq<T>, prints: seq<seq<seq<T>>>, i: nat, j: nat)
    requires IsRing(g) && i <= j <= |prints|
    ensures Tracked(g, logged, CourseAt(Began(g, logged), prints, j))
    ensures Onward(CourseAt(Began(g, logged), prints, i), CourseAt(Began(g, logged), prints, j))
    decreases j
  {
    var c := Began(g, logged);
    if j == 0 {
      TrackedBegin(g, logged);
    } else if i == j {
      TrackedAt(g, logged, prints, i - 1, j - 1);
      TrackedAfter(g, logged, CourseAt(c, prints, j - 1), prints[j - 1], j == 2);
    } else {
      TrackedAt(g, logged, prints, i, j - 1);
      TrackedAfter(g, logged, CourseAt(c, prints, j - 1), prints[j - 1], j == 2);
    }
  }

  /** No character occurs twice, as when each carries its position in the log. */
  ghost predicate Distinct<T>(s: seq<T>) {
    forall i, j :: 0 <= i < j < |s| ==> s[i] != s[j]
  }

  /** The text is what was kept, followed by what was logged next and by nothing else. */
  ghost predicate Continues<T>(text: seq<T>, kept: seq<T>, logged: seq<T>, now: seq<T>) {
    IsPrefix(kept, text) && IsPrefix(logged + text[|kept|..], now)
  }

  /** What an upload read as its k-th file, against what was kept there; late says whether rotation had
      reached it by then. */
  ghost predicate Piece<T>(before: seq<T>, read: seq<T>, late: bool, k: nat, logged: seq<T>, added: seq<T>, now: seq<T>)
    requires |logged + added| <= |now|
  {
    if late then Later(read, logged + added, now)
    else read == before + if k == MAX_LOG_FILES - 1 then added else []
  }

  ghost predicate Pieces<T>(order: seq<seq<T>>, read: seq<seq<T>>, late: seq<bool>,
                            logged: seq<T>, added: seq<T>, now: seq<T>)
  {
    && |order| == |read| == |late| == MAX_LOG_FILES
    && IsSuffix(Flatten(order), logged) && IsPrefix(logged + added, now)
    && (forall k: nat :: k < MAX_LOG_FILES && late[k] ==> order[MAX_LOG_FILES - 1] + added != [])
    && forall k: nat :: k < MAX_LOG_FILES ==> Piece(order[k], read[k], late[k], k, logged, added, now)
  }

  /** Whatever rotation had reached was empty before and is empty now. */
  ghost predicate Unharmed<T>(order: seq<seq<T>>, read: seq<seq<T>>, late: seq<bool>)
    requires |order| == |read| == |late|
  {
    forall k :: 0 <= k < |late| && late[k] ==> order[k] == [] && read[k] == []
  }

  lemma {:induction false} InFlatten<T>(parts: seq<seq<T>>, x: T) returns (k: nat)
    requires x in Flatten(parts)
    ensures k < |parts| && x in parts[k]
  {
    var n := |parts| - 1;
    if x in parts[n] {
      k := n;
    } else {
      k := InFlatten(parts[..n], x);
    }
  }

  lemma {:induction false} FlattenHas<T>(parts: seq<seq<T>>, k: nat, x: T)
    requires k < |parts| && x in parts[k]
    ensures x in Flatten(parts)
  {
    if k < |parts| - 1 {
      FlattenHas(parts[..|parts| - 1], k, x);
    }
  }

  /** The beginning of the log shares nothing with the rest. */
  lemma Apart<T>(first: seq<T>, all: seq<T>)
    requires Distinct(all) && IsPrefix(first, all)
    ensures forall x :: x in first ==> x !in all[|first|..]
  {
    var rest := all[|first|..];
    assert forall i :: 0 <= i < |first| ==> first[i] == all[i];
    assert forall j :: 0 <= j < |rest| ==> rest[j] == all[|first| + j];
  }

  lemma DistinctPart<T>(all: seq<T>, from: nat, to: nat)
    requires Distinct(all) && from <= to <= |all|
    ensures Distinct(all[from..to])
  {
  }

  lemma {:induction false} PiecesApart<T>(parts: seq<seq<T>>, j: nat, k: nat)
    requires Distinct(Flatten(parts)) && j < k < |parts|
    ensures forall x :: x in parts[j] ==> x !in parts[k]
  {
    var n := |parts| - 1;
    var init := Flatten(parts[..n]);
    assert Flatten(parts)[..|init|] == init && Flatten(parts)[|init|..] == parts[n];
    if k < n {
      DistinctPart(Flatten(parts), 0, |init|);
      PiecesApart(parts[..n], j, k);
    } else {
      forall x | x in parts[j] ensures x in init { FlattenHas(parts[..n], j, x); }
      Apart(init, Flatten(parts));
    }
  }

  lemma UnharmedContinues<T>(order: seq<seq<T>>, read: seq<seq<T>>, late: seq<bool>,
                             logged: seq<T>, added: seq<T>, now: seq<T>)
    requires Pieces(order, read, late, logged, added, now) && Unharmed(order, read, late)
    ensures Continues(Flatten(read), Flatten(order), logged, now)
  {
    var n := MAX_LOG_FILES - 1;
    assert forall k: nat :: k < n ==> read[k] == order[k];
    assert read[..n] == order[..n];
    var more := if late[n] then [] else added;
    assert read[n] == order[n] + more;
    ConcatAssociative(Flatten(order[..n]), order[n], more);
    assert IsPrefix(logged + more, now) by {
      assert now[..|logged|] == (logged + added)[..|logged|] == logged;
      assert logged + [] == logged;
    }
    assert Flatten(read)[|Flatten(order)|..] == more;
  }

  /** Characters of the log up to and after what was added. */
  lemma PieceOrigin<T>(order: seq<seq<T>>, read: seq<seq<T>>, late: seq<bool>,
                       logged: seq<T>, added: seq<T>, now: seq<T>, k: nat, x: T)
    requires Pieces(order, read, late, logged, added, now) && Distinct(now) && k < MAX_LOG_FILES && x in read[k]
    ensures late[k] ==> x !in logged && x !in added
    ensures !late[k] ==> x in order[k] || (k == MAX_LOG_FILES - 1 && x in added)
  {
    Apart(logged + added, now);
  }

  lemma OrderIsOld<T>(order: seq<seq<T>>, logged: seq<T>, added: seq<T>, now: seq<T>)
    requires IsSuffix(Flatten(order), logged) && IsPrefix(logged + added, now) && Distinct(now)
    ensures Distinct(Flatten(order)) && forall x :: x in Flatten(order) ==> x in logged && x !in added
  {
    var before := logged + added;
    assert before == now[0..|before|];
    DistinctPart(now, 0, |before|);
    Apart(logged, before);
    assert before[|logged|..] == added && logged == before[0..|logged|];
    DistinctPart(before, 0, |logged|);
    DistinctPart(logged, |logged| - |Flatten(order)|, |logged|);
    assert logged[|logged| - |Flatten(order)|..|logged|] == Flatten(order);
  }

  lemma LateWasEmpty<T>(order: seq<seq<T>>, read: seq<seq<T>>, late: seq<bool>,
                        logged: seq<T>, added: seq<T>, now: seq<T>, k: nat)
    requires Pieces(order, read, late, logged, added, now) && Distinct(now)
    requires Continues(Flatten(read), Flatten(order), logged, now) && k < MAX_LOG_FILES && late[k]
    ensures order[k] == []
  {
    if order[k] != [] {
      var x := order[k][0];
      FlattenHas(order, k, x);
      OrderIsOld(order, logged, added, now);
      var j := InFlatten(read, x);
      PieceOrigin(order, read, late, logged, added, now, j, x);
      if j < k {
        PiecesApart(order, j, k);
      } else if k < j {
        PiecesApart(order, k, j);
      }
    }
  }

  lemma LateIsEmpty<T>(order: seq<seq<T>>, read: seq<seq<T>>, late: seq<bool>,
                       logged: seq<T>, added: seq<T>, now: seq<T>, k: nat)
    requires Pieces(order, read, late, logged, added, now) && Distinct(now)
    requires Continues(Flatten(read), Flatten(order), logged, now) && k < MAX_LOG_FILES && late[k]
    ensures read[k] == []
  {
    if read[k] != [] {
      var more := Flatten(read)[|Flatten(order)|..];
      assert Flatten(read) == Flatten(order) + more;
      FlattenHas(read, k, read[k][0]);
      PieceOrigin(order, read, late, logged, added, now, k, read[k][0]);
      OrderIsOld(order, logged, added, now);
      assert read[k][0] in more;
      NewGoesBeyond(logged, added, more, now, read[k][0]);
      LateWasEmptyEverywhere(order, read, late, logged, added, now);
      BeyondIsWrong(order, read, late, logged, added, now, more);
    }
  }

  /** What continues the log with something that is not in added holds all of added first. */
  lemma NewGoesBeyond<T>(logged: seq<T>, added: seq<T>, more: seq<T>, now: seq<T>, y: T)
    requires IsPrefix(logged + added, now) && IsPrefix(logged + more, now) && y in more && y !in added
    ensures |added| < |more| && more[..|added|] == added
  {
    assert forall i :: 0 <= i < |more| ==> (logged + more)[|logged| + i] == more[i] == now[|logged| + i];
    assert forall i :: 0 <= i < |added| ==> (logged + added)[|logged| + i] == added[i] == now[|logged| + i];
    assert forall i :: 0 <= i < |more| && i < |added| ==> more[i] == added[i];
  }

  lemma LateWasEmptyEverywhere<T>(order: seq<seq<T>>, read: seq<seq<T>>, late: seq<bool>,
                                  logged: seq<T>, added: seq<T>, now: seq<T>)
    requires Pieces(order, read, late, logged, added, now) && Distinct(now)
    requires Continues(Flatten(read), Flatten(order), logged, now)
    ensures forall k :: 0 <= k < MAX_LOG_FILES && late[k] ==> order[k] == []
  {
    forall k | 0 <= k < MAX_LOG_FILES && late[k]
      ensures order[k] == []
    {
      LateWasEmpty(order, read, late, logged, added, now, k);
    }
  }

  lemma LastIsNew<T>(logged: seq<T>, added: seq<T>, more: seq<T>, now: seq<T>)
    requires IsPrefix(logged + added, now) && IsPrefix(logged + more, now) && Distinct(now) && |added| < |more|
    ensures more[|more| - 1] !in logged + added
  {
    var z, i := more[|more| - 1], |logged| + |more| - 1;
    assert now[i] == (logged + more)[i] == z;
    assert now[|logged + added|..][i - |logged + added|] == z;
    Apart(logged + added, now);
  }

  /** The last file holds the end of what was added, or was overtaken and has lost it: either way the
      upload cannot go beyond, unless nothing was added. */
  lemma BeyondIsWrong<T>(order: seq<seq<T>>, read: seq<seq<T>>, late: seq<bool>,
                         logged: seq<T>, added: seq<T>, now: seq<T>, more: seq<T>)
    requires Pieces(order, read, late, logged, added, now) && Distinct(now)
    requires Flatten(read) == Flatten(order) + more && IsPrefix(logged + more, now)
    requires |added| < |more| && more[..|added|] == added
    requires forall k :: 0 <= k < MAX_LOG_FILES && late[k] ==> order[k] == []
    ensures order[MAX_LOG_FILES - 1] + added == []
  {
    var n := MAX_LOG_FILES - 1;
    OrderIsOld(order, logged, added, now);
    if late[n] && added != [] {
      var z := added[0];
      assert z == more[0] && z in Flatten(read);
      var j := InFlatten(read, z);
      PieceOrigin(order, read, late, logged, added, now, j, z);
      FlattenHas(order, j, z);
    }
    if !late[n] && read[n] != [] {
      var z := read[n][|read[n]| - 1];
      assert Flatten(read) == Flatten(read[..n]) + read[n];
      assert z == Flatten(read)[|Flatten(read)| - 1] == more[|more| - 1];
      PieceOrigin(order, read, late, logged, added, now, n, z);
      if z in order[n] {
        FlattenHas(order, n, z);
      }
      LastIsNew(logged, added, more, now);
    }
  }

  lemma ContinuesIffUnharmed<T>(order: seq<seq<T>>, read: seq<seq<T>>, late: seq<bool>,
                                logged: seq<T>, added: seq<T>, now: seq<T>)
    requires Pieces(order, read, late, logged, added, now) && Distinct(now)
    ensures Continues(Flatten(read), Flatten(order), logged, now) <==> Unharmed(order, read, late)
  {
    if Unharmed(order, read, late) {
      UnharmedContinues(order, read, late, logged, added, now);
    }
    if Continues(Flatten(read), Flatten(order), logged, now) {
      forall k | 0 <= k < MAX_LOG_FILES && late[k]
        ensures order[k] == [] && read[k] == []
      {
        LateWasEmpty(order, read, late, logged, added, now, k);
        LateIsEmpty(order, read, late, logged, added, now, k);
      }
    }
  }

  /** Rotation has reached the k-th file of the upload by the time it is read. */
  predicate Overtaken<T>(c: Course<T>, prints: seq<seq<seq<T>>>, k: nat)
    requires IsRing(c.ring) && k + 2 <= |prints|
  {
    CourseAt(c, prints, k + 2).rotations > k
  }

  function Lateness<T>(c: Course<T>, prints: seq<seq<seq<T>>>): (r: seq<bool>)
    requires IsRing(c.ring) && |prints| == MAX_LOG_FILES + 1
    ensures |r| == MAX_LOG_FILES
  {
    seq(MAX_LOG_FILES, k requires 0 <= k < MAX_LOG_FILES => Overtaken(c, prints, k))
  }

  /** What file k held at some moment, told from the end. */
  lemma PieceRead<T>(g: AnyRing<T>, logged: seq<T>, mid: Course<T>, end: Course<T>, k: nat)
    requires Tracked(g, logged, mid) && Tracked(g, logged, end) && Onward(mid, end) && k < MAX_LOG_FILES
    requires k == MAX_LOG_FILES - 1 ==> mid == end
    ensures Piece(UploadOrder(g.files, g.current)[k], mid.ring.files[FileAt(k, g.current)], k < mid.rotations, k,
                  logged, end.added, end.logged)
    ensures k < mid.rotations ==> UploadOrder(g.files, g.current)[MAX_LOG_FILES - 1] + end.added != []
  {
    assert PlaceTracked(g, logged, mid, k);
    assert mid.ring.files[FileAt(k, g.current)] == Places(g, mid)[k];
    if k < mid.rotations {
      var rest := end.logged[|mid.logged|..];
      assert end.logged == mid.logged + rest;
      LaterExtended(Places(g, mid)[k], logged + mid.added, mid.logged, rest);
    }
  }

  /** The upload's file k as one of the pieces. */
  lemma UploadPiece<T>(g: AnyRing<T>, logged: seq<T>, prints: seq<seq<seq<T>>>, end: Course<T>, k: nat)
    requires IsRing(g) && |prints| == MAX_LOG_FILES + 1 && k < MAX_LOG_FILES
    requires end == CourseAt(Began(g, logged), prints, |prints|)
    ensures var c := Began(g, logged);
            && |logged + end.added| <= |end.logged|
            && (Overtaken(c, prints, k) ==> UploadOrder(g.files, g.current)[MAX_LOG_FILES - 1] + end.added != [])
            && Piece(UploadOrder(g.files, g.current)[k], FoundAt(c, prints, k), Overtaken(c, prints, k),
                     k, logged, end.added, end.logged)
  {
    var mid := CourseAt(Began(g, logged), prints, k + 2);
    TrackedAt(g, logged, prints, k + 2, k + 2);
    TrackedAt(g, logged, prints, k + 2, |prints|);
    PieceRead(g, logged, mid, end, k);
  }

  lemma UploadPieces<T>(g: AnyRing<T>, logged: seq<T>, prints: seq<seq<seq<T>>>, end: Course<T>)
    requires Keeps(g, logged) && |prints| == MAX_LOG_FILES + 1
    requires end == CourseAt(Began(g, logged), prints, |prints|)
    ensures Pieces(UploadOrder(g.files, g.current), ReadFiles(Began(g, logged), prints, MAX_LOG_FILES),
                   Lateness(Began(g, logged), prints), logged, end.added, end.logged)
  {
    var order, read, late := UploadOrder(g.files, g.current), ReadFiles(Began(g, logged), prints, MAX_LOG_FILES),
                             Lateness(Began(g, logged), prints);
    KeptIsLongSuffix(g, logged);
    TrackedAt(g, logged, prints, 0, |prints|);
    forall k: nat | k < MAX_LOG_FILES
      ensures Piece(order[k], read[k], late[k], k, logged, end.added, end.logged)
      ensures late[k] ==> order[MAX_LOG_FILES - 1] + end.added != []
    {
      UploadPiece(g, logged, prints, end, k);
    }
    PiecesTogether(order, read, late, logged, end.added, end.logged);
  }

  lemma PiecesTogether<T>(order: seq<seq<T>>, read: seq<seq<T>>, late: seq<bool>,
                          logged: seq<T>, added: seq<T>, now: seq<T>)
    requires |order| == |read| == |late| == MAX_LOG_FILES
    requires IsSuffix(Flatten(order), logged) && IsPrefix(logged + added, now)
    requires forall k: nat :: k < MAX_LOG_FILES && late[k] ==> order[MAX_LOG_FILES - 1] + added != []
    requires forall k: nat :: k < MAX_LOG_FILES ==> Piece(order[k], read[k], late[k], k, logged, added, now)
    ensures Pieces(order, read, late, logged, added, now)
  {
  }

  /** With each character carrying its position in the log: whatever is printed meanwhile, the upload is
      what was kept at its start, followed by what was logged next, exactly when every file that rotation
      reaches before it is read was unused then and is still empty. */
  lemma UploadContinuesIff<T>(g: AnyRing<T>, logged: seq<T>, prints: seq<seq<seq<T>>>)
    requires Keeps(g, logged) && |prints| == MAX_LOG_FILES + 1
    requires Distinct(CourseAt(Began(g, logged), prints, |prints|).logged)
    ensures var c := Began(g, logged);
            var read := ReadFiles(c, prints, MAX_LOG_FILES);
            Continues(Flatten(read), Kept(g), logged, CourseAt(c, prints, |prints|).logged)
            <==> Unharmed(UploadOrder(g.files, g.current), read, Lateness(c, prints))
  {
    var c := Began(g, logged);
    var end := CourseAt(c, prints, |prints|);
    UploadPieces(g, logged, prints, end);
    ContinuesIffUnharmed(UploadOrder(g.files, g.current), ReadFiles(c, prints, MAX_LOG_FILES), Lateness(c, prints),
                         logged, end.added, end.logged);
  }

  /** Then, even if characters repeat, the upload is the end of the log up to a point not before its
      start, all of it or at least seven full files' worth. */
  lemma UnharmedIsLongSuffix<T>(g: AnyRing<T>, logged: seq<T>, prints: seq<seq<seq<T>>>)
    requires Keeps(g, logged) && |prints| == MAX_LOG_FILES + 1
    requires var c := Began(g, logged);
             Unharmed(UploadOrder(g.files, g.current), ReadFiles(c, prints, MAX_LOG_FILES), Lateness(c, prints))
    ensures var c := Began(g, logged);
            var text := Flatten(ReadFiles(c, prints, MAX_LOG_FILES));
            && Continues(text, Kept(g), logged, CourseAt(c, prints, |prints|).logged)
            && LongSuffix(text, logged + text[|Kept(g)|..])
  {
    var c := Began(g, logged);
    var end := CourseAt(c, prints, |prints|);
    UploadPieces(g, logged, prints, end);
    KeptIsLongSuffix(g, logged);
    PiecesAreLongSuffix(UploadOrder(g.files, g.current), ReadFiles(c, prints, MAX_LOG_FILES), Lateness(c, prints),
                        logged, end.added, end.logged);
  }

  lemma PiecesAreLongSuffix<T>(order: seq<seq<T>>, read: seq<seq<T>>, late: seq<bool>,
                               logged: seq<T>, added: seq<T>, now: seq<T>)
    requires Pieces(order, read, late, logged, added, now) && Unharmed(order, read, late)
    requires LongSuffix(Flatten(order), logged)
    ensures Continues(Flatten(read), Flatten(order), logged, now)
    ensures LongSuffix(Flatten(read), logged + Flatten(read)[|Flatten(order)|..])
  {
    UnharmedContinues(order, read, late, logged, added, now);
    var more := Flatten(read)[|Flatten(order)|..];
    assert Flatten(read) == Flatten(order) + more;
    SuffixExtended(Flatten(order), logged, more);
  }

  lemma {:induction false} CourseRing<T>(c: Course<T>, items: seq<seq<T>>, held: bool)
    requires IsRing(c.ring)
    ensures CourseAfter(c, items, held).ring == AfterItems(c.ring, items, held)
    ensures held ==> CourseAfter(c, items, held).rotations == c.rotations
  {
    if items != [] {
      CourseRing(c, items[..|items| - 1], held);
    }
  }

  /** What is printed while the first file is awaited never reaches it: if nothing was printed before the
      hold, it is read as it was kept. */
  lemma HoldProtectsFirstFile<T>(g: AnyRing<T>, logged: seq<T>, prints: seq<seq<seq<T>>>)
    requires IsRing(g) && |prints| == MAX_LOG_FILES + 1 && prints[0] == []
    ensures var c := Began(g, logged);
            !Overtaken(c, prints, 0) && FoundAt(c, prints, 0) == UploadOrder(g.files, g.current)[0]
  {
    var c := Began(g, logged);
    assert CourseAt(c, prints, 0) == c;
    assert CourseAt(c, prints, 1) == CourseAfter(c, prints[0], false) == c;
    CourseNext(c, prints, 0);
    CourseRing(c, prints[1], true);
    HeldPrinting(g, prints[1]);
  }

  /** After the first file rotation goes on: what is printed before file k is read follows the same rule as
      without an upload. */
  lemma HoldEndsWithFirstFile<T>(g: AnyRing<T>, logged: seq<T>, prints: seq<seq<seq<T>>>, k: nat)
    requires IsRing(g) && |prints| == MAX_LOG_FILES + 1 && 1 <= k < MAX_LOG_FILES
    ensures var c := Began(g, logged);
            CourseAt(c, prints, k + 2).ring == AfterItems(CourseAt(c, prints, k + 1).ring, prints[k + 1], false)
  {
    var c := Began(g, logged);
    CourseNext(c, prints, k);
    CourseRing(CourseAt(c, prints, k + 1), prints[k + 1], false);
  }

  /** A new printer; two items come after the upload has noted the current file and before it holds
      rotation back, and the first one fills that file. */
  function Empty<T>(): (g: AnyRing<T>)
    ensures IsRing(g)
  {
    Ring(seq(MAX_LOG_FILES, _ => []), 0)
  }

  function EarlyPrints<T>(first: seq<T>, second: seq<T>): seq<seq<seq<T>>> {
    [[first, second]] + seq(MAX_LOG_FILES, _ => [])
  }

  lemma {:induction false} AfterEarlyPrints<T>(first: seq<T>, second: seq<T>, j: nat)
    requires |first| == ROTATE_AT && |second| < ROTATE_AT && 1 <= j <= MAX_LOG_FILES + 1
    ensures CourseAt(Began(Empty(), []), EarlyPrints(first, second), j) ==
            Course(Ring(Empty().files[0 := first][1 := second], 1), first + second, 1, first)
    decreases j
  {
    var c, prints := Began<T>(Empty(), []), EarlyPrints(first, second);
    if j == 1 {
      var both := [first, second];
      assert prints[0] == both && both[..1] == [first] && [first][..0] == [];
      assert [] + first == first && [] + second == second;
      var one := CourseStep(c, first, false);
      assert one == Course(Ring(Empty().files[0 := first], 1), first, 1, first) by {
        assert Empty<T>().files[0 := first][1 := []] == Empty<T>().files[0 := first];
      }
      assert CourseAfter(c, [first], false) == one;
      assert CourseAfter(c, both, false) == CourseStep(one, second, false);
    } else {
      AfterEarlyPrints(first, second, j - 1);
      assert prints[j - 1] == [];
    }
  }

  lemma EarlyFound<T>(first: seq<T>, second: seq<T>, k: nat)
    requires |first| == ROTATE_AT && |second| < ROTATE_AT && k < MAX_LOG_FILES
    ensures FoundAt(Began(Empty(), []), EarlyPrints(first, second), k) ==
            if k == 0 then second else if k == MAX_LOG_FILES - 1 then first else []
  {
    AfterEarlyPrints(first, second, k + 2);
  }

  lemma FlattenEnds<T>(read: seq<seq<T>>)
    requires |read| == MAX_LOG_FILES && forall k :: 1 <= k < MAX_LOG_FILES - 1 ==> read[k] == []
    ensures Flatten(read) == read[0] + read[MAX_LOG_FILES - 1]
  {
    var head, middle, tail := [read[0]], read[1..MAX_LOG_FILES - 1], [read[MAX_LOG_FILES - 1]];
    assert read == (head + middle) + tail;
    EmptyFiles(middle);
    FlattenConcat(head, middle);
    FlattenConcat(head + middle, tail);
    FlattenSingle(read[0]);
    FlattenSingle(read[MAX_LOG_FILES - 1]);
  }

  /** It does go wrong: one rotation before it is held back, and the upload ends with the text it should
      begin with. */
  lemma EarlyRotationReordersUpload<T>(first: seq<T>, second: seq<T>)
    requires |first| == ROTATE_AT && 0 < |second| < ROTATE_AT && first[0] != second[0]
    ensures var c, prints := Began<T>(Empty(), []), EarlyPrints(first, second);
            var text := Flatten(ReadFiles(c, prints, MAX_LOG_FILES));
            && CourseAt(c, prints, |prints|).logged == first + second
            && text == second + first && !Continues(text, Kept(Empty<T>()), [], first + second)
  {
    var c, prints := Began<T>(Empty(), []), EarlyPrints(first, second);
    var n := |prints|;
    AfterEarlyPrints(first, second, n);
    var read := ReadFiles(c, prints, MAX_LOG_FILES);
    forall k: nat | k < MAX_LOG_FILES
      ensures read[k] == if k == 0 then second else if k == MAX_LOG_FILES - 1 then first else []
    {
      EarlyFound(first, second, k);
    }
    FlattenEnds(read);
    NotFirst(first, second);
  }

  lemma NotFirst<T>(first: seq<T>, second: seq<T>)
    requires first != [] && second != [] && first[0] != second[0]
    ensures !Continues(second + first, Kept(Empty<T>()), [], first + second)
  {
    EmptyFiles(UploadOrder(Empty<T>().files, 0));
    var text := second + first;
    assert Kept(Empty<T>()) == [] && [] + text[0..] == text;
    assert text[0] == second[0] && (first + second)[0] == first[0];
  }
}
