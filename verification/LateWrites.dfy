/**
 * Writes through a handle whose file has been unlinked. An old file is moved into the
 * save directory, handle and all, so such a write spoils the saved copy; but the hook
 * saves that copy first, as it would any old file, and logs it. Replaying newest
 * first mends every copy before it is used.
 */
module LateWrites {
  import opened Base
  import opened Table
  import opened Volume
  import opened Restore
  import opened TimeTravel
  import opened Exactness

  // ---- A log that also holds rows about saved copies ----

  /** A row about a file, or a MODFILE row whose path is the saved copy `name`, with what that copy was. */
  datatype Entry = OfFile(row: Row) | OfCopy(name: Name, was: Content, accessTime: Time, rpTime: Time) {
    function Access(): Time {
      if OfFile? then row.accessTime else accessTime
    }

    function Stamp(): Time {
      if OfFile? then row.rpTime else rpTime
    }

    function Stamped(stamp: Time): Entry {
      if OfFile? then OfFile(row.(rpTime := stamp)) else this.(rpTime := stamp)
    }

    predicate Covers(t: Time) {
      Access() <= t <= Stamp()
    }

    predicate UsesCopy(n: Name) {
      OfFile? && row.HoldsCopy() && row.name == n
    }
  }

  /** The rows about files. */
  function Files(log: seq<Entry>): seq<Row> {
    if log == [] then []
    else
      var rest, last := Files(log[..|log| - 1]), log[|log| - 1];
      if last.OfFile? then rest + [last.row] else rest
  }

  function SelectEntries(log: seq<Entry>, t: Time): (xs: seq<Entry>)
    ensures forall x :: x in xs <==> x in log && x.Covers(t)
  {
    if log == [] then []
    else
      var rest, last := SelectEntries(log[..|log| - 1], t), log[|log| - 1];
      if last.Covers(t) then rest + [last] else rest
  }

  function DeleteEntries(log: seq<Entry>, d: Time, pred: Time): seq<Entry> {
    if log == [] then []
    else
      var rest, last := DeleteEntries(log[..|log| - 1], d, pred), log[|log| - 1];
      if last.Stamp() != d then rest + [last]
      else if last.Access() > pred then rest
      else rest + [last.Stamped(pred)]
  }

  /** The loop of a restore: a row about a saved copy is undone in the save directory. */
  function RestoreEntries(mode: UndoMode, saves: Saves, f: Volume.Files, xs: seq<Entry>, now: Time): Volume.Files
    decreases |xs|
  {
    if xs == [] then f
    else
      match xs[|xs| - 1]
      case OfFile(r) => RestoreEntries(mode, saves, RestoreRow(mode, saves, f, r, now), xs[..|xs| - 1], now)
      case OfCopy(n, was, _, _) => RestoreEntries(mode, saves[n := was], f, xs[..|xs| - 1], now)
  }

  // ---- Newest first mends every copy in time ----

  /** What the copy `n` is given by the first entry after `i` that is about it. */
  function Mended(xs: seq<Entry>, i: nat, n: Name): Option<Content>
    decreases |xs| - i
  {
    if i + 1 >= |xs| then None
    else if xs[i + 1].OfCopy? && xs[i + 1].name == n then Some(xs[i + 1].was)
    else Mended(xs, i + 1, n)
  }

  /** When its turn comes, every row finds the copy that `clean` has. */
  ghost predicate Right(clean: Saves, dirty: Saves, xs: seq<Entry>) {
    forall i, n | 0 <= i < |xs| && xs[i].UsesCopy(n) :: FindsClean(clean, dirty, xs, i, n)
  }

  predicate FindsClean(clean: Saves, dirty: Saves, xs: seq<Entry>, i: nat, n: Name) {
    && n in clean
    && match Mended(xs, i, n)
       case Some(c) => c == clean[n]
       case None => n in dirty && dirty[n] == clean[n]
  }

  /** However the copy `n` is spoilt, it is mended in time. */
  ghost predicate Guarded(xs: seq<Entry>, n: Name) {
    forall i | 0 <= i < |xs| && xs[i].UsesCopy(n) :: Mended(xs, i, n).Some?
  }

  lemma {:induction false} MendedSnoc(xs: seq<Entry>, x: Entry, i: nat, n: Name)
    requires i < |xs|
    ensures Mended(xs + [x], i, n)
            == if Mended(xs, i, n).Some? then Mended(xs, i, n)
               else if x.OfCopy? && x.name == n then Some(x.was) else None
    decreases |xs| - i
  {
    if i + 1 < |xs| && !(xs[i + 1].OfCopy? && xs[i + 1].name == n) {
      MendedSnoc(xs, x, i + 1, n);
    }
  }

  /** Rows about files name saved copies only when they hold one. */
  predicate NamesOk(x: Entry) {
    if x.OfFile? then !x.row.kind.Rmdir? && (x.row.kind.Rename? ==> x.row.name.Under?) else x.name.Copy?
  }

  predicate CopiesOnly(saves: Saves) {
    forall n | n in saves :: n.Copy?
  }

  lemma {:induction false} ReplayMends(mode: UndoMode, clean: Saves, dirty: Saves, f: Volume.Files, xs: seq<Entry>, now: Time)
    requires Right(clean, dirty, xs) && CopiesOnly(clean) && CopiesOnly(dirty) && forall x | x in xs :: NamesOk(x)
    ensures RestoreEntries(mode, dirty, f, xs, now) == RestoreRows(mode, clean, f, Files(xs), now)
    decreases |xs|
  {
    if xs != [] {
      var init, last := xs[..|xs| - 1], xs[|xs| - 1];
      assert xs == init + [last] && NamesOk(last);
      assert forall x | x in init :: x in xs;
      var dirty' := if last.OfCopy? then dirty[last.name := last.was] else dirty;
      forall i, n | 0 <= i < |init| && init[i].UsesCopy(n)
        ensures FindsClean(clean, dirty', init, i, n)
      {
        assert xs[i].UsesCopy(n) && FindsClean(clean, dirty, xs, i, n);
        MendedSnoc(init, last, i, n);
      }
      match last
      case OfCopy(_, _, _, _) => ReplayMends(mode, clean, dirty', f, init, now);
      case OfFile(r) =>
        if r.HoldsCopy() {
          assert xs[|xs| - 1].UsesCopy(r.name) && FindsClean(clean, dirty, xs, |xs| - 1, r.name);
        }
        assert RestoreRow(mode, dirty, f, r, now) == RestoreRow(mode, clean, f, r, now);
        ReplayMends(mode, clean, dirty, RestoreRow(mode, clean, f, r, now), init, now);
    }
  }

  // ---- The table statements on such a log ----

  lemma FilesSnoc(log: seq<Entry>, x: Entry)
    ensures Files(log + [x]) == if x.OfFile? then Files(log) + [x.row] else Files(log)
  {
    assert (log + [x])[..|log|] == log;
  }

  lemma SelectSnoc(log: seq<Entry>, x: Entry, t: Time)
    ensures SelectEntries(log + [x], t) == if x.Covers(t) then SelectEntries(log, t) + [x] else SelectEntries(log, t)
  {
    assert (log + [x])[..|log|] == log;
  }

  lemma {:induction false} SelectFiles(log: seq<Entry>, t: Time)
    ensures Files(SelectEntries(log, t)) == Select(Files(log), t)
  {
    if log != [] {
      var init, last := log[..|log| - 1], log[|log| - 1];
      SelectFiles(init, t);
      FilesSnoc(SelectEntries(init, t), last);
      if last.OfFile? {
        SelectAppend(Files(init), last.row, t);
      }
    }
  }

  lemma {:induction false} DeleteFiles(log: seq<Entry>, d: Time, pred: Time)
    ensures Files(DeleteEntries(log, d, pred)) == DeleteRows(Files(log), d, pred)
  {
    if log != [] {
      var init, last := log[..|log| - 1], log[|log| - 1];
      var kept := DeleteEntries(init, d, pred);
      DeleteFiles(init, d, pred);
      if last.OfFile? {
        assert Files(log) == Files(init) + [last.row] && (Files(init) + [last.row])[..|Files(init)|] == Files(init);
        if last.Stamp() != d {
          FilesSnoc(kept, last);
        } else if last.Access() <= pred {
          FilesSnoc(kept, last.Stamped(pred));
        }
      } else {
        FilesSnoc(kept, last);
        FilesSnoc(kept, last.Stamped(pred));
      }
    }
  }

  lemma {:induction false} FilesMember(log: seq<Entry>, r: Row)
    ensures r in Files(log) <==> OfFile(r) in log
  {
    if log != [] {
      FilesMember(log[..|log| - 1], r);
      assert log == log[..|log| - 1] + [log[|log| - 1]];
    }
  }

  predicate SameEntry(x: Entry, y: Entry) {
    x == y.Stamped(x.Stamp())
  }

  predicate SameEntries(a: seq<Entry>, b: seq<Entry>) {
    |a| == |b| && forall i | 0 <= i < |a| :: SameEntry(a[i], b[i])
  }

  lemma EntrySelection(x: Entry, points: set<Time>, d: Time, t: Time)
    requires forall s | s in points :: s > 0
    requires d in points && t in points && t != d && x.Stamp() == d
    ensures
      var pred := Predecessor(points, d);
      if x.Access() > pred then !x.Covers(t) else x.Stamped(pred).Covers(t) == x.Covers(t)
  {
  }

  lemma SameSnocEntry(a: seq<Entry>, b: seq<Entry>, x: Entry, y: Entry)
    requires SameEntries(a, b) && SameEntry(x, y)
    ensures SameEntries(a + [x], b + [y])
  {
  }

  lemma {:induction false} EntriesPreserved(log: seq<Entry>, points: set<Time>, d: Time, t: Time)
    requires forall s | s in points :: s > 0
    requires d in points && t in points && t != d
    ensures SameEntries(SelectEntries(DeleteEntries(log, d, Predecessor(points, d)), t), SelectEntries(log, t))
  {
    if log != [] {
      var pred := Predecessor(points, d);
      var init, last := log[..|log| - 1], log[|log| - 1];
      var kept := DeleteEntries(init, d, pred);
      EntriesPreserved(init, points, d, t);
      if last.Stamp() != d {
        SelectSnoc(kept, last, t);
        SameSnocEntry(SelectEntries(kept, t), SelectEntries(init, t), last, last);
      } else {
        EntrySelection(last, points, d, t);
        SelectSnoc(kept, last.Stamped(pred), t);
        SameSnocEntry(SelectEntries(kept, t), SelectEntries(init, t), last.Stamped(pred), last);
      }
    }
  }

  lemma {:induction false} MendedSame(a: seq<Entry>, b: seq<Entry>, i: nat, n: Name)
    requires SameEntries(a, b)
    ensures Mended(a, i, n) == Mended(b, i, n)
    decreases |a| - i
  {
    if i + 1 < |a| {
      assert SameEntry(a[i + 1], b[i + 1]);
      MendedSame(a, b, i + 1, n);
    }
  }

  // ---- Histories with late writes ----

  /** A handle that follows its unlinked file into the save directory. */
  datatype Orphan = Orphan(name: Name, backedUp: bool)

  /**
   * The volume as it is, its log, the inodes of unlinked files that became saved
   * copies (their times; the content is the copy's), and the handles that follow them.
   */
  datatype Late = Late(sys: Sys, log: seq<Entry>, inodes: map<Name, File>, orphans: map<nat, Orphan>)

  /** `moved`: the ctime of the file's inode once the event has moved it into the save directory. */
  datatype Deed = Ordinary(event: Event, moved: Time) | LateWrite(handle: nat, content: Content, now: Time)

  /** The event moves the inode of an old file. */
  predicate Moves(s: Sys, e: Event) {
    e.op.UnlinkFile? && s.Old(e.op.path)
  }

  /** No live point lies between the mtime of the moved inode and its ctime; a move that keeps ctime never puts one there. */
  predicate MoveOk(s: Sys, e: Event, moved: Time) {
    Moves(s, e) ==> moved <= e.now && TimesAgree(s.files[e.op.path].(ctime := moved), s.points)
  }

  ghost predicate Permitted(mode: UndoMode, l: Late, deed: Deed) {
    match deed
    case Ordinary(e, moved) =>
      && Allowed(mode, l.sys, e) && MoveOk(l.sys, e, moved)
      && (e.op.NewPoint? ==> forall h | h in l.orphans :: !l.orphans[h].backedUp)
    case LateWrite(h, _, now) =>
      && h in l.orphans && l.orphans[h].name in l.inodes && l.orphans[h].name in l.sys.saves
      && l.sys.clock <= now && l.sys.epoch < now
  }

  /** wrapfs_write on a lower file that lies in the save directory. */
  function WrittenLate(l: Late, h: nat, c: Content, now: Time): Late
    requires h in l.orphans && l.orphans[h].name in l.inodes && l.orphans[h].name in l.sys.saves
  {
    var Orphan(n, backedUp) := l.orphans[h];
    var save := l.inodes[n].mtime < l.sys.epoch && !backedUp;
    Late(l.sys.(saves := l.sys.saves[n := c], clock := now),
         if save then l.log + [OfCopy(n, l.sys.saves[n], l.inodes[n].ctime, l.sys.epoch)] else l.log,
         l.inodes[n := File(c, now, now)],
         l.orphans[h := Orphan(n, backedUp || save)])
  }

  /** The handles that follow `p` into the save directory. */
  function Followers(s: Sys, p: Path): map<nat, Orphan> {
    map h | h in s.handles && s.handles[h].Linked? && s.handles[h].path == p :: Orphan(Copy(p, s.epoch), s.handles[h].backedUp)
  }

  ghost function Happened(l: Late, e: Event, moved: Time): Late
    requires Possible(l.sys, e.op)
  {
    var sys := Apply(l.sys, e);
    match e.op
    case DeletePoint(d) =>
      Late(sys, DeleteEntries(l.log, d, Predecessor(l.sys.points, d)),
           map n | n in l.inodes && n in sys.saves :: l.inodes[n],
           map h | h in l.orphans && l.orphans[h].name in sys.saves :: l.orphans[h])
    case CloseFile(h) => l.(sys := sys, orphans := l.orphans - {h})
    case UnlinkFile(p) =>
      if l.sys.Old(p)
      then Late(sys, l.log + [OfFile(sys.rows[|sys.rows| - 1])], l.inodes[Copy(p, l.sys.epoch) := l.sys.files[p].(ctime := moved)],
                l.orphans + Followers(l.sys, p))
      else l.(sys := sys)
    case _ =>
      l.(sys := sys, log := if |sys.rows| > |l.sys.rows| then l.log + [OfFile(sys.rows[|sys.rows| - 1])] else l.log)
  }

  ghost function Done(mode: UndoMode, l: Late, deed: Deed): Late
    requires Permitted(mode, l, deed)
  {
    match deed
    case Ordinary(e, moved) => Happened(l, e, moved)
    case LateWrite(h, c, now) => WrittenLate(l, h, c, now)
  }

  ghost predicate Lawful(mode: UndoMode, l: Late, deeds: seq<Deed>)
    decreases |deeds|
  {
    deeds == [] || (Permitted(mode, l, deeds[0]) && Lawful(mode, Done(mode, l, deeds[0]), deeds[1..]))
  }

  ghost function End(mode: UndoMode, l: Late, deeds: seq<Deed>): Late
    requires Lawful(mode, l, deeds)
    decreases |deeds|
  {
    if deeds == [] then l else End(mode, Done(mode, l, deeds[0]), deeds[1..])
  }

  /** What happened but for the late writes. */
  function Ordinaries(deeds: seq<Deed>): seq<Event> {
    if deeds == [] then []
    else (if deeds[0].Ordinary? then [deeds[0].event] else []) + Ordinaries(deeds[1..])
  }

  // ---- The invariant ----

  /** `clean` is the volume without the late writes. */
  ghost predicate Spoilt(l: Late, clean: Sys) {
    && l.sys == clean.(saves := l.sys.saves, clock := l.sys.clock) && clean.clock <= l.sys.clock
    && l.sys.saves.Keys == clean.saves.Keys && Files(l.log) == clean.rows
    && (forall x | x in l.log :: NamesOk(x) && x.Stamp() <= clean.epoch)
    && forall t | t in clean.points :: Right(clean.saves, l.sys.saves, SelectEntries(l.log, t))
  }

  /** A copy whose inode changed after `t` is mended whenever `t` is restored. */
  predicate InodeOk(l: Late, n: Name) {
    && n in l.inodes && n in l.sys.saves
    && 0 < l.inodes[n].mtime <= l.sys.clock && l.inodes[n].ctime <= l.sys.clock && l.inodes[n].mtime != l.sys.epoch
    && TimesAgree(l.inodes[n], l.sys.points)
  }

  /** Every live point either saw the inode or has its copy guarded. */
  ghost predicate Guards(log: seq<Entry>, inode: File, n: Name, points: set<Time>) {
    forall t | t in points :: inode.mtime <= t || Guarded(SelectEntries(log, t), n)
  }

  predicate OrphansOk(l: Late) {
    forall h | h in l.orphans ::
      && l.orphans[h].name in l.inodes
      && (l.orphans[h].backedUp ==> l.inodes[l.orphans[h].name].mtime >= l.sys.epoch)
  }

  ghost predicate InodesOk(l: Late) {
    && (forall n | n in l.inodes :: InodeOk(l, n) && Guards(l.log, l.inodes[n], n, l.sys.points))
    && OrphansOk(l)
  }

  ghost predicate LateInv(mode: UndoMode, l: Late, clean: Sys, snaps: Snapshots) {
    Inv(mode, clean, snaps) && Spoilt(l, clean) && InodesOk(l)
  }

  // ---- A late write ----

  lemma {:induction false} GuardedSnoc(xs: seq<Entry>, x: Entry, n: Name)
    requires Guarded(xs, n) && !x.UsesCopy(n)
    ensures Guarded(xs + [x], n)
  {
    forall i | 0 <= i < |xs + [x]| && (xs + [x])[i].UsesCopy(n)
      ensures Mended(xs + [x], i, n).Some?
    {
      assert xs[i].UsesCopy(n);
      MendedSnoc(xs, x, i, n);
    }
  }

  /** The hook's own save guards the copy. */
  lemma SaveGuards(xs: seq<Entry>, x: Entry)
    requires x.OfCopy?
    ensures Guarded(xs + [x], x.name)
  {
    forall i | 0 <= i < |xs + [x]| && (xs + [x])[i].UsesCopy(x.name)
      ensures Mended(xs + [x], i, x.name).Some?
    {
      MendedSnoc(xs, x, i, x.name);
    }
  }

  lemma SaveKeepsRight(clean: Saves, dirty: Saves, xs: seq<Entry>, x: Entry, c: Content)
    requires Right(clean, dirty, xs) && x.OfCopy? && x.name in dirty && x.was == dirty[x.name]
    ensures Right(clean, dirty[x.name := c], xs + [x])
  {
    forall i, n | 0 <= i < |xs + [x]| && (xs + [x])[i].UsesCopy(n)
      ensures FindsClean(clean, dirty[x.name := c], xs + [x], i, n)
    {
      assert xs[i].UsesCopy(n) && FindsClean(clean, dirty, xs, i, n);
      MendedSnoc(xs, x, i, n);
    }
  }

  lemma SpoilKeepsRight(clean: Saves, dirty: Saves, xs: seq<Entry>, m: Name, c: Content)
    requires Right(clean, dirty, xs) && Guarded(xs, m)
    ensures Right(clean, dirty[m := c], xs)
  {
    forall i, n | 0 <= i < |xs| && xs[i].UsesCopy(n)
      ensures FindsClean(clean, dirty[m := c], xs, i, n)
    {
      assert FindsClean(clean, dirty, xs, i, n);
    }
  }

  lemma LateWriteAt(l: Late, clean: Sys, h: nat, c: Content, now: Time, t: Time)
    requires Spoilt(l, clean) && InodesOk(l) && h in l.orphans && t in clean.points && t <= clean.epoch
    requires l.orphans[h].name in l.inodes && l.orphans[h].name in l.sys.saves && clean.epoch < now
    ensures
      var l' := WrittenLate(l, h, c, now);
      && Right(clean.saves, l'.sys.saves, SelectEntries(l'.log, t))
      && forall n | n in l.inodes && (n == l.orphans[h].name || Guarded(SelectEntries(l.log, t), n)) ::
           Guarded(SelectEntries(l'.log, t), n)
  {
    var n, xs := l.orphans[h].name, SelectEntries(l.log, t);
    var x := OfCopy(n, l.sys.saves[n], l.inodes[n].ctime, l.sys.epoch);
    assert InodeOk(l, n) && Right(clean.saves, l.sys.saves, xs);
    SelectSnoc(l.log, x, t);
    if l.inodes[n].mtime < l.sys.epoch && !l.orphans[h].backedUp && x.Covers(t) {
      SaveKeepsRight(clean.saves, l.sys.saves, xs, x, c);
      SaveGuards(xs, x);
      forall m | Guarded(xs, m)
        ensures Guarded(xs + [x], m)
      {
        GuardedSnoc(xs, x, m);
      }
    } else {
      assert Guarded(xs, n);
      SpoilKeepsRight(clean.saves, l.sys.saves, xs, n, c);
    }
  }

  lemma LateWriteSpoils(mode: UndoMode, l: Late, clean: Sys, snaps: Snapshots, h: nat, c: Content, now: Time)
    requires LateInv(mode, l, clean, snaps) && Permitted(mode, l, LateWrite(h, c, now))
    ensures Spoilt(WrittenLate(l, h, c, now), clean)
  {
    var l', n := WrittenLate(l, h, c, now), l.orphans[h].name;
    FilesSnoc(l.log, OfCopy(n, l.sys.saves[n], l.inodes[n].ctime, l.sys.epoch));
    assert l'.sys.saves.Keys == l.sys.saves.Keys;
    assert n.Copy?;
    forall t | t in clean.points
      ensures Right(clean.saves, l'.sys.saves, SelectEntries(l'.log, t))
    {
      LateWriteAt(l, clean, h, c, now, t);
    }
  }

  lemma LateWriteInode(mode: UndoMode, l: Late, clean: Sys, snaps: Snapshots, h: nat, c: Content, now: Time, m: Name)
    requires LateInv(mode, l, clean, snaps) && Permitted(mode, l, LateWrite(h, c, now)) && m in l.inodes
    ensures
      var l' := WrittenLate(l, h, c, now);
      InodeOk(l', m) && Guards(l'.log, l'.inodes[m], m, l'.sys.points)
  {
    var l' := WrittenLate(l, h, c, now);
    assert InodeOk(l, m) && Guards(l.log, l.inodes[m], m, l.sys.points) && TimesOk(clean);
    forall t | t in l'.sys.points
      ensures l'.inodes[m].mtime <= t || Guarded(SelectEntries(l'.log, t), m)
    {
      LateWriteAt(l, clean, h, c, now, t);
    }
  }

  lemma LateWriteInodes(mode: UndoMode, l: Late, clean: Sys, snaps: Snapshots, h: nat, c: Content, now: Time)
    requires LateInv(mode, l, clean, snaps) && Permitted(mode, l, LateWrite(h, c, now))
    ensures InodesOk(WrittenLate(l, h, c, now))
  {
    var l' := WrittenLate(l, h, c, now);
    assert l'.inodes.Keys == l.inodes.Keys;
    forall m | m in l'.inodes
      ensures InodeOk(l', m) && Guards(l'.log, l'.inodes[m], m, l'.sys.points)
    {
      LateWriteInode(mode, l, clean, snaps, h, c, now, m);
    }
  }

  lemma LateWriteStep(mode: UndoMode, l: Late, clean: Sys, snaps: Snapshots, h: nat, c: Content, now: Time)
    requires LateInv(mode, l, clean, snaps) && Permitted(mode, l, LateWrite(h, c, now))
    ensures LateInv(mode, WrittenLate(l, h, c, now), clean, snaps)
  {
    LateWriteSpoils(mode, l, clean, snaps, h, c, now);
    LateWriteInodes(mode, l, clean, snaps, h, c, now);
  }

  // ---- Everything else ----

  /** The same volume but for what the saved copies hold, and perhaps the clock. */
  predicate SameButSaves(s: Sys, clean: Sys) {
    s == clean.(saves := s.saves, clock := s.clock) && clean.clock <= s.clock && s.saves.Keys == clean.saves.Keys
  }

  lemma CleanAllowed(mode: UndoMode, s: Sys, clean: Sys, e: Event)
    requires SameButSaves(s, clean) && Allowed(mode, s, e)
    ensures Allowed(mode, clean, e)
  {
  }

  lemma CleanApply(s: Sys, clean: Sys, e: Event)
    requires SameButSaves(s, clean) && Possible(s, e.op) && Possible(clean, e.op)
    ensures SameButSaves(Apply(s, e), Apply(clean, e)) && Logged(s, e) == Logged(clean, e)
  {
    match e.op
    case OpenFile(_, _, _) => CleanTouch(s, clean, e);
    case WriteFile(_, _) => CleanTouch(s, clean, e);
    case UnlinkFile(_) => CleanRemove(s, clean, e);
    case RenameFile(_, _) => CleanRemove(s, clean, e);
    case DeletePoint(d) => assert Deleted(s, d).saves.Keys == Deleted(clean, d).saves.Keys;
    case _ =>
  }

  lemma CleanTouch(s: Sys, clean: Sys, e: Event)
    requires SameButSaves(s, clean) && Possible(s, e.op) && Possible(clean, e.op) && (e.op.OpenFile? || e.op.WriteFile?)
    ensures SameButSaves(Apply(s, e), Apply(clean, e))
  {
  }

  lemma CleanRemove(s: Sys, clean: Sys, e: Event)
    requires SameButSaves(s, clean) && Possible(s, e.op) && Possible(clean, e.op) && (e.op.UnlinkFile? || e.op.RenameFile?)
    ensures SameButSaves(Apply(s, e), Apply(clean, e))
  {
  }

  /** Logging a row, and the copy it names if that was free. */
  lemma LogKeepsRight(clean: Saves, dirty: Saves, xs: seq<Entry>, r: Row, c: Content, covers: bool)
    requires Right(clean, dirty, xs) && r.HoldsCopy() && r.name !in clean
    ensures Right(clean[r.name := c], dirty[r.name := c], if covers then xs + [OfFile(r)] else xs)
  {
    var xs' := if covers then xs + [OfFile(r)] else xs;
    forall i, n | 0 <= i < |xs'| && xs'[i].UsesCopy(n)
      ensures FindsClean(clean[r.name := c], dirty[r.name := c], xs', i, n)
    {
      if i < |xs| {
        assert xs[i].UsesCopy(n) && FindsClean(clean, dirty, xs, i, n);
        MendedSnoc(xs, OfFile(r), i, n);
      }
    }
  }

  lemma NoCopyKeepsRight(clean: Saves, dirty: Saves, xs: seq<Entry>, r: Row)
    requires Right(clean, dirty, xs) && !r.HoldsCopy()
    ensures Right(clean, dirty, xs + [OfFile(r)])
  {
    forall i, n | 0 <= i < |xs + [OfFile(r)]| && (xs + [OfFile(r)])[i].UsesCopy(n)
      ensures FindsClean(clean, dirty, xs + [OfFile(r)], i, n)
    {
      assert xs[i].UsesCopy(n) && FindsClean(clean, dirty, xs, i, n);
      MendedSnoc(xs, OfFile(r), i, n);
    }
  }

  /** The log after a hook. */
  ghost function LogAfter(l: Late, e: Event): seq<Entry>
    requires Possible(l.sys, e.op)
  {
    if Logged(l.sys, e).Some? then l.log + [OfFile(Logged(l.sys, e).value)] else l.log
  }

  lemma HookKeepsRight(mode: UndoMode, l: Late, clean: Sys, snaps: Snapshots, e: Event, t: Time)
    requires LateInv(mode, l, clean, snaps) && Possible(l.sys, e.op) && Possible(clean, e.op) && !e.op.DeletePoint?
    requires t in clean.points
    ensures Right(Apply(clean, e).saves, Apply(l.sys, e).saves, SelectEntries(LogAfter(l, e), t))
  {
    var xs := SelectEntries(l.log, t);
    CleanApply(l.sys, clean, e);
    SavesOneCopy(clean, e);
    SavesOneCopy(l.sys, e);
    assert Right(clean.saves, l.sys.saves, xs);
    match Logged(clean, e)
    case None =>
    case Some(r) =>
      SelectSnoc(l.log, OfFile(r), t);
      if r.HoldsCopy() {
        LogKeepsRight(clean.saves, l.sys.saves, xs, r, clean.files[r.path].content, r.Covers(t));
      } else {
        NoCopyKeepsRight(clean.saves, l.sys.saves, xs, r);
      }
  }

  lemma HookSpoils(mode: UndoMode, l: Late, clean: Sys, snaps: Snapshots, e: Event, moved: Time)
    requires LateInv(mode, l, clean, snaps) && Permitted(mode, l, Ordinary(e, moved)) && Allowed(mode, clean, e) && !e.op.DeletePoint?
    ensures Spoilt(l.(sys := Apply(l.sys, e), log := LogAfter(l, e)), Apply(clean, e))
  {
    CleanApply(l.sys, clean, e);
    LogsOneRow(clean, e);
    HookClock(clean, e);
    HookLog(l, clean, e);
    forall t | t in Apply(clean, e).points
      ensures Right(Apply(clean, e).saves, Apply(l.sys, e).saves, SelectEntries(LogAfter(l, e), t))
    {
      if t in clean.points {
        HookKeepsRight(mode, l, clean, snaps, e, t);
      } else {
        NothingSelected(LogAfter(l, e), t);
      }
    }
  }

  lemma NothingSelected(log: seq<Entry>, t: Time)
    requires forall x | x in log :: x.Stamp() < t
    ensures SelectEntries(log, t) == []
  {
    if SelectEntries(log, t) != [] {
      assert SelectEntries(log, t)[0] in SelectEntries(log, t);
    }
  }

  lemma HookLog(l: Late, clean: Sys, e: Event)
    requires Spoilt(l, clean) && Possible(l.sys, e.op) && Possible(clean, e.op) && !e.op.DeletePoint? && Timely(clean, e)
    requires Logged(l.sys, e) == Logged(clean, e)
    ensures Files(LogAfter(l, e)) == Apply(clean, e).rows
    ensures forall x | x in LogAfter(l, e) :: NamesOk(x) && x.Stamp() <= clean.epoch
  {
    LogsOneRow(clean, e);
    if Logged(clean, e).Some? {
      FilesSnoc(l.log, OfFile(Logged(clean, e).value));
      LoggedNames(clean, e);
    }
  }

  lemma LoggedNames(s: Sys, e: Event)
    requires Possible(s, e.op) && Logged(s, e).Some?
    ensures NamesOk(OfFile(Logged(s, e).value))
  {
  }

  // ---- Inodes ----

  /** A name that no row of the log uses. */
  lemma UnusedGuarded(xs: seq<Entry>, n: Name)
    requires forall x | x in xs :: !x.UsesCopy(n)
    ensures Guarded(xs, n)
  {
    assert forall i | 0 <= i < |xs| :: xs[i] in xs;
  }

  /** What a hook logs leaves the guards of all other copies. */
  lemma HookKeepsGuards(l: Late, e: Event, n: Name, t: Time)
    requires Possible(l.sys, e.op) && Guarded(SelectEntries(l.log, t), n)
    requires Logged(l.sys, e).Some? ==> !OfFile(Logged(l.sys, e).value).UsesCopy(n)
    ensures Guarded(SelectEntries(LogAfter(l, e), t), n)
  {
    if Logged(l.sys, e).Some? {
      SelectSnoc(l.log, OfFile(Logged(l.sys, e).value), t);
      GuardedSnoc(SelectEntries(l.log, t), OfFile(Logged(l.sys, e).value), n);
    }
  }

  lemma HookInode(mode: UndoMode, l: Late, clean: Sys, snaps: Snapshots, e: Event, moved: Time, n: Name)
    requires LateInv(mode, l, clean, snaps) && Permitted(mode, l, Ordinary(e, moved)) && Allowed(mode, clean, e) && !e.op.DeletePoint?
    requires n in l.inodes
    ensures InodeOk(l.(sys := Apply(l.sys, e)), n) && Guards(LogAfter(l, e), l.inodes[n], n, Apply(l.sys, e).points)
  {
    assert InodeOk(l, n) && Guards(l.log, l.inodes[n], n, l.sys.points);
    HookClock(l.sys, e);
    HookFresh(mode, l, clean, snaps, e, moved, n);
    forall t | t in l.sys.points
      ensures l.inodes[n].mtime <= t || Guarded(SelectEntries(LogAfter(l, e), t), n)
    {
      if l.inodes[n].mtime > t {
        HookKeepsGuards(l, e, n, t);
      }
    }
  }

  lemma HookClock(s: Sys, e: Event)
    requires Possible(s, e.op) && Timely(s, e) && !e.op.DeletePoint?
    ensures
      var s' := Apply(s, e);
      && s'.clock >= s.clock && s.saves.Keys <= s'.saves.Keys
      && if e.op.NewPoint? then s'.points == s.points + {s'.epoch} && s'.epoch > s.clock
         else s'.points == s.points && s'.epoch == s.epoch
  {
  }

  /** A hook saves under a name that was free. */
  lemma HookFresh(mode: UndoMode, l: Late, clean: Sys, snaps: Snapshots, e: Event, moved: Time, n: Name)
    requires LateInv(mode, l, clean, snaps) && Permitted(mode, l, Ordinary(e, moved)) && Allowed(mode, clean, e) && !e.op.DeletePoint?
    requires n in l.sys.saves
    ensures Logged(l.sys, e).Some? ==> !OfFile(Logged(l.sys, e).value).UsesCopy(n)
  {
    SavesOneCopy(l.sys, e);
    assert SavesOk(clean);
  }

  /** The inode of a file that is unlinked now: a point that did not see it does not select its row. */
  lemma UnlinkedInode(mode: UndoMode, l: Late, clean: Sys, snaps: Snapshots, e: Event, moved: Time)
    requires LateInv(mode, l, clean, snaps) && Permitted(mode, l, Ordinary(e, moved)) && Allowed(mode, clean, e)
    requires e.op.UnlinkFile? && l.sys.Old(e.op.path)
    ensures
      var n, f := Copy(e.op.path, l.sys.epoch), l.sys.files[e.op.path];
      && n in Apply(l.sys, e).saves && 0 < f.mtime < l.sys.epoch && moved <= e.now
      && TimesAgree(f.(ctime := moved), l.sys.points) && Guards(LogAfter(l, e), f, n, l.sys.points)
  {
    var n, f := Copy(e.op.path, l.sys.epoch), l.sys.files[e.op.path];
    assert TimesOk(clean) && n !in clean.saves;
    forall t | t in l.sys.points && f.mtime > t
      ensures Guarded(SelectEntries(LogAfter(l, e), t), n)
    {
      SelectSnoc(l.log, OfFile(Logged(l.sys, e).value), t);
      assert Right(clean.saves, l.sys.saves, SelectEntries(l.log, t));
      forall x | x in SelectEntries(l.log, t)
        ensures !x.UsesCopy(n)
      {
        var i :| 0 <= i < |SelectEntries(l.log, t)| && SelectEntries(l.log, t)[i] == x;
      }
      UnusedGuarded(SelectEntries(l.log, t), n);
    }
  }

  lemma HookHappened(l: Late, e: Event, moved: Time)
    requires Possible(l.sys, e.op) && !e.op.DeletePoint?
    ensures
      var l' := Happened(l, e, moved);
      && l'.sys == Apply(l.sys, e) && l'.log == LogAfter(l, e)
      && l'.inodes == (if Moves(l.sys, e)
                       then l.inodes[Copy(e.op.path, l.sys.epoch) := l.sys.files[e.op.path].(ctime := moved)]
                       else l.inodes)
      && l'.orphans == (if Moves(l.sys, e) then l.orphans + Followers(l.sys, e.op.path)
                        else if e.op.CloseFile? then l.orphans - {e.op.handle} else l.orphans)
  {
    LogsOneRow(l.sys, e);
  }

  lemma HookOrphans(mode: UndoMode, l: Late, clean: Sys, snaps: Snapshots, e: Event, moved: Time)
    requires LateInv(mode, l, clean, snaps) && Permitted(mode, l, Ordinary(e, moved)) && Allowed(mode, clean, e) && !e.op.DeletePoint?
    ensures OrphansOk(Happened(l, e, moved))
  {
    HookHappened(l, e, moved);
    HookClock(l.sys, e);
    assert HandlesOk(clean) && OrphansOk(l);
    if Moves(l.sys, e) {
      assert SavesOk(clean) && forall n | n in l.inodes :: InodeOk(l, n);
    }
  }

  lemma HookInodes(mode: UndoMode, l: Late, clean: Sys, snaps: Snapshots, e: Event, moved: Time)
    requires LateInv(mode, l, clean, snaps) && Permitted(mode, l, Ordinary(e, moved)) && Allowed(mode, clean, e) && !e.op.DeletePoint?
    ensures InodesOk(Happened(l, e, moved))
  {
    var l' := Happened(l, e, moved);
    HookHappened(l, e, moved);
    HookOrphans(mode, l, clean, snaps, e, moved);
    HookClock(l.sys, e);
    if Moves(l.sys, e) {
      UnlinkedInode(mode, l, clean, snaps, e, moved);
    }
    forall n | n in l'.inodes
      ensures InodeOk(l', n) && Guards(l'.log, l'.inodes[n], n, l'.sys.points)
    {
      if Moves(l.sys, e) && n == Copy(e.op.path, l.sys.epoch) {
        assert l'.inodes[n] == l.sys.files[e.op.path].(ctime := moved);
      } else {
        HookInode(mode, l, clean, snaps, e, moved, n);
      }
    }
  }

  lemma HookStep(mode: UndoMode, l: Late, clean: Sys, snaps: Snapshots, e: Event, moved: Time)
    requires LateInv(mode, l, clean, snaps) && Permitted(mode, l, Ordinary(e, moved)) && Allowed(mode, clean, e) && !e.op.DeletePoint?
    ensures LateInv(mode, Happened(l, e, moved), Apply(clean, e), Noted(clean, e, snaps))
  {
    Step(mode, clean, e, snaps);
    HookHappened(l, e, moved);
    HookSpoils(mode, l, clean, snaps, e, moved);
    HookInodes(mode, l, clean, snaps, e, moved);
    var l0, l' := l.(sys := Apply(l.sys, e), log := LogAfter(l, e)), Happened(l, e, moved);
    assert l0.sys == l'.sys && l0.log == l'.log;
  }

  // ---- Deletion ----

  lemma {:induction false} DeletedEntries(log: seq<Entry>, d: Time, pred: Time, bound: Time)
    requires pred <= bound && forall x | x in log :: NamesOk(x) && x.Stamp() <= bound
    ensures forall x | x in DeleteEntries(log, d, pred) :: NamesOk(x) && x.Stamp() <= bound
  {
    if log != [] {
      DeletedEntries(log[..|log| - 1], d, pred, bound);
      assert log[|log| - 1] in log;
    }
  }

  lemma SameKeepsRight(clean: Saves, dirty: Saves, xs: seq<Entry>, clean': Saves, dirty': Saves, ys: seq<Entry>)
    requires Right(clean, dirty, xs) && SameEntries(ys, xs)
    requires forall x, n | x in xs && x.UsesCopy(n) && n in clean :: n in clean' && clean'[n] == clean[n]
    requires forall x, n | x in xs && x.UsesCopy(n) && n in dirty :: n in dirty' && dirty'[n] == dirty[n]
    ensures Right(clean', dirty', ys)
  {
    forall i, n | 0 <= i < |ys| && ys[i].UsesCopy(n)
      ensures FindsClean(clean', dirty', ys, i, n)
    {
      assert SameEntry(ys[i], xs[i]) && xs[i] in xs && xs[i].UsesCopy(n);
      assert FindsClean(clean, dirty, xs, i, n);
      MendedSame(ys, xs, i, n);
    }
  }

  lemma SameKeepsGuarded(xs: seq<Entry>, ys: seq<Entry>, n: Name)
    requires Guarded(xs, n) && SameEntries(ys, xs)
    ensures Guarded(ys, n)
  {
    forall i | 0 <= i < |ys| && ys[i].UsesCopy(n)
      ensures Mended(ys, i, n).Some?
    {
      assert SameEntry(ys[i], xs[i]) && xs[i].UsesCopy(n);
      MendedSame(ys, xs, i, n);
    }
  }

  lemma DeletionKeepsRight(mode: UndoMode, l: Late, clean: Sys, snaps: Snapshots, d: Time, t: Time)
    requires LateInv(mode, l, clean, snaps) && d in clean.points && t in clean.points && t != d
    ensures Right(Deleted(clean, d).saves, Deleted(l.sys, d).saves,
                  SelectEntries(DeleteEntries(l.log, d, Predecessor(clean.points, d)), t))
  {
    var xs := SelectEntries(l.log, t);
    EntriesPreserved(l.log, clean.points, d, t);
    forall x, n | x in xs && x.UsesCopy(n) && n in clean.saves
      ensures n in Deleted(clean, d).saves && n in Deleted(l.sys, d).saves
    {
      FilesMember(l.log, x.row);
      RowSelection(x.row, clean.points, d, t);
      SurvivorsKeepCopies(clean, d, x.row);
    }
    assert Right(clean.saves, l.sys.saves, xs);
    SameKeepsRight(clean.saves, l.sys.saves, xs, Deleted(clean, d).saves, Deleted(l.sys, d).saves,
                   SelectEntries(DeleteEntries(l.log, d, Predecessor(clean.points, d)), t));
  }

  lemma DeletionSpoils(mode: UndoMode, l: Late, clean: Sys, snaps: Snapshots, e: Event, moved: Time)
    requires LateInv(mode, l, clean, snaps) && Permitted(mode, l, Ordinary(e, moved)) && Allowed(mode, clean, e) && e.op.DeletePoint?
    ensures Spoilt(Happened(l, e, moved), Apply(clean, e))
  {
    var d, pred := e.op.point, Predecessor(clean.points, e.op.point);
    CleanApply(l.sys, clean, e);
    DeleteFiles(l.log, d, pred);
    assert TimesOk(clean);
    DeletedEntries(l.log, d, pred, clean.epoch);
    forall t | t in Apply(clean, e).points
      ensures Right(Apply(clean, e).saves, Apply(l.sys, e).saves, SelectEntries(DeleteEntries(l.log, d, pred), t))
    {
      DeletionKeepsRight(mode, l, clean, snaps, d, t);
    }
  }

  lemma DeletionInodes(mode: UndoMode, l: Late, clean: Sys, snaps: Snapshots, e: Event, moved: Time)
    requires LateInv(mode, l, clean, snaps) && Permitted(mode, l, Ordinary(e, moved)) && Allowed(mode, clean, e) && e.op.DeletePoint?
    ensures InodesOk(Happened(l, e, moved))
  {
    var l', d := Happened(l, e, moved), e.op.point;
    assert TimesOk(clean);
    forall n | n in l'.inodes
      ensures InodeOk(l', n) && Guards(l'.log, l'.inodes[n], n, l'.sys.points)
    {
      assert InodeOk(l, n) && Guards(l.log, l.inodes[n], n, l.sys.points);
      forall t | t in l'.sys.points && l.inodes[n].mtime > t
        ensures Guarded(SelectEntries(l'.log, t), n)
      {
        EntriesPreserved(l.log, l.sys.points, d, t);
        SameKeepsGuarded(SelectEntries(l.log, t), SelectEntries(l'.log, t), n);
      }
    }
  }

  // ---- Whole histories ----

  lemma DeedKeepsInv(mode: UndoMode, l: Late, clean: Sys, snaps: Snapshots, deed: Deed) returns (clean': Sys, snaps': Snapshots)
    requires LateInv(mode, l, clean, snaps) && Permitted(mode, l, deed)
    ensures LateInv(mode, Done(mode, l, deed), clean', snaps')
    ensures
      match deed
      case Ordinary(e, moved) => Allowed(mode, clean, e) && clean' == Apply(clean, e) && snaps' == Noted(clean, e, snaps)
      case LateWrite(_, _, _) => clean' == clean && snaps' == snaps
  {
    match deed
    case LateWrite(h, c, now) =>
      LateWriteStep(mode, l, clean, snaps, h, c, now);
      clean', snaps' := clean, snaps;
    case Ordinary(e, moved) =>
      CleanAllowed(mode, l.sys, clean, e);
      if e.op.DeletePoint? {
        Step(mode, clean, e, snaps);
        DeletionSpoils(mode, l, clean, snaps, e, moved);
        DeletionInodes(mode, l, clean, snaps, e, moved);
      } else {
        HookStep(mode, l, clean, snaps, e, moved);
      }
      clean', snaps' := Apply(clean, e), Noted(clean, e, snaps);
  }

  lemma {:induction false} DeedsKeepInv(mode: UndoMode, l: Late, clean: Sys, snaps: Snapshots, deeds: seq<Deed>)
    requires LateInv(mode, l, clean, snaps) && Lawful(mode, l, deeds)
    ensures Legal(mode, clean, Ordinaries(deeds))
    ensures LateInv(mode, End(mode, l, deeds), Run(mode, clean, Ordinaries(deeds)), snaps + Taken(mode, clean, Ordinaries(deeds)))
    decreases |deeds|
  {
    if deeds == [] {
      assert snaps + Taken(mode, clean, []) == snaps;
    } else {
      var es := Ordinaries(deeds);
      var clean', snaps' := DeedKeepsInv(mode, l, clean, snaps, deeds[0]);
      DeedsKeepInv(mode, Done(mode, l, deeds[0]), clean', snaps', deeds[1..]);
      if deeds[0].Ordinary? {
        assert es[1..] == Ordinaries(deeds[1..]);
        TakenStep(mode, clean, es, snaps);
      } else {
        assert es == Ordinaries(deeds[1..]);
      }
    }
  }

  /**
   * Late writes do not matter. After any legal history with writes through handles of
   * unlinked files, in which no move into the save directory sets an inode's ctime
   * across a live point, restoring to a live point gives the same files as if none of
   * those writes had happened.
   */
  lemma LateWritesVanish(mode: UndoMode, s: Sys, deeds: seq<Deed>, t: Time, now: Time)
    requires Initial(s) && Lawful(mode, Late(s, [], map[], map[]), deeds)
    requires t in End(mode, Late(s, [], map[], map[]), deeds).sys.points
    ensures Legal(mode, s, Ordinaries(deeds))
    ensures
      var end, clean := End(mode, Late(s, [], map[], map[]), deeds), Run(mode, s, Ordinaries(deeds));
      && end.sys.files == clean.files && t in clean.points
      && RestoreEntries(mode, end.sys.saves, end.sys.files, SelectEntries(end.log, t), now) == RestoreTo(mode, clean, t, now)
  {
    var start := Late(s, [], map[], map[]);
    InitialInv(mode, s);
    DeedsKeepInv(mode, start, s, map[], deeds);
    var end, clean := End(mode, start, deeds), Run(mode, s, Ordinaries(deeds));
    SelectFiles(end.log, t);
    assert Right(clean.saves, end.sys.saves, SelectEntries(end.log, t));
    ReplayMends(mode, clean.saves, end.sys.saves, end.sys.files, SelectEntries(end.log, t), now);
  }

  // ---- A move that sets ctime ----

  /**
   * Right after a restore point, a file is unlinked and then written through a handle
   * that was open on it. Whatever ctime the move into the save directory leaves the
   * inode, the file comes back exactly when that is not after the point, or when the
   * late write changed nothing.
   */
  lemma LateWriteExactly(mode: UndoMode, l: Late, h: nat, p: Path, unlinked: Time, moved: Time, c: Content, now: Time, later: Time)
    requires JustTaken(l.sys) && p in l.sys.files && (forall x | x in l.log :: !x.Covers(l.sys.epoch)) && !IsAside(p, later)
    requires h in l.sys.handles && l.sys.handles[h] == Linked(p, false)
    ensures
      var l1 := Happened(l, Event(UnlinkFile(p), unlinked), moved);
      && h in l1.orphans && l1.orphans[h].name in l1.inodes && l1.orphans[h].name in l1.sys.saves
      && (var l2 := WrittenLate(l1, h, c, now);
          var f := RestoreEntries(mode, l2.sys.saves, l2.sys.files, SelectEntries(l2.log, l.sys.epoch), later);
          p in f && (f[p].content == l.sys.files[p].content <==> moved <= l.sys.epoch || c == l.sys.files[p].content))
  {
    var s, t, n := l.sys, l.sys.epoch, Copy(p, l.sys.epoch);
    var l1 := Happened(l, Event(UnlinkFile(p), unlinked), moved);
    var l2 := WrittenLate(l1, h, c, now);
    var r := Row(t, Unlink, p, n, s.files[p].ctime);
    var x := OfCopy(n, s.files[p].content, moved, t);
    assert l1.log == l.log + [OfFile(r)] && l2.log == l1.log + [x];
    LateSelection(l.log, OfFile(r), x, t);
    LateReplay(mode, l2.sys.saves, l2.sys.files, r, x, later);
  }

  lemma LateSelection(log: seq<Entry>, x: Entry, y: Entry, t: Time)
    requires x.Covers(t) && forall z | z in log :: !z.Covers(t)
    ensures SelectEntries(log + [x] + [y], t) == if y.Covers(t) then [x, y] else [x]
  {
    if SelectEntries(log, t) != [] {
      assert SelectEntries(log, t)[0] in SelectEntries(log, t);
    }
    SelectSnoc(log, x, t);
    SelectSnoc(log + [x], y, t);
  }

  lemma ReplayOne(mode: UndoMode, saves: Saves, f: Volume.Files, r: Row, later: Time)
    requires r.HoldsCopy() && r.name in saves && !IsAside(r.path, later)
    ensures
      var g := RestoreEntries(mode, saves, f, [OfFile(r)], later);
      r.path in g && g[r.path].content == saves[r.name]
  {
    assert [OfFile(r)][..0] == [];
    CopyRowRestores(mode, saves, f, r, later);
  }

  lemma LateReplay(mode: UndoMode, saves: Saves, f: Volume.Files, r: Row, y: Entry, later: Time)
    requires r.HoldsCopy() && r.name in saves && y.OfCopy? && y.name == r.name && !IsAside(r.path, later)
    ensures
      var g := RestoreEntries(mode, saves, f, [OfFile(r)], later);
      r.path in g && g[r.path].content == saves[r.name]
    ensures
      var g := RestoreEntries(mode, saves, f, [OfFile(r), y], later);
      r.path in g && g[r.path].content == y.was
  {
    var both := [OfFile(r), y];
    assert both[..|both| - 1] == [OfFile(r)];
    assert RestoreEntries(mode, saves, f, both, later) == RestoreEntries(mode, saves[y.name := y.was], f, [OfFile(r)], later);
    ReplayOne(mode, saves, f, r, later);
    ReplayOne(mode, saves[y.name := y.was], f, r, later);
  }

  // ---- What is asked and what is done ----

  /** A move that keeps ctime is always allowed. */
  lemma KeepingCtimeOk(s: Sys, e: Event)
    requires TimesOk(s) && Possible(s, e.op) && Timely(s, e) && e.op.UnlinkFile?
    ensures MoveOk(s, e, s.files[e.op.path].ctime)
  {
  }

  /** A late write puts its content into the saved copy and makes the inode young; other copies stay. */
  lemma LateWriteTouches(l: Late, h: nat, c: Content, now: Time, n: Name)
    requires h in l.orphans && l.orphans[h].name in l.inodes && l.orphans[h].name in l.sys.saves
    ensures
      var l', mine := WrittenLate(l, h, c, now), l.orphans[h].name;
      && l'.sys.saves[mine] == c && l'.inodes[mine].mtime == now == l'.inodes[mine].ctime
      && (n != mine ==> (n in l'.sys.saves <==> n in l.sys.saves) && (n in l.sys.saves ==> l'.sys.saves[n] == l.sys.saves[n]))
      && l'.sys.files == l.sys.files && l'.sys.rows == l.sys.rows
  {
  }
}
