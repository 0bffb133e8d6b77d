/** Moves of directories of which some watches do not say the old path: exactly the others are reported. */
module RenameStale {
  import opened RenameSpec

  // ---------------------------------------------------------------- records apart from the others

  /** The records whose old path is not in `strays`. */
  function Clean(ds: seq<MoveDir>, strays: set<Path>): (r: seq<MoveDir>)
    ensures |r| <= |ds|
  {
    if ds == [] then []
    else if ds[0].oldPath in strays then Clean(ds[1..], strays)
    else [ds[0]] + Clean(ds[1..], strays)
  }

  /** The stores without the records of stray paths and without some cookies. */
  function CleanState(s: State, strays: set<Path>, cookies: set<nat>): State {
    State(s.watch, s.files - cookies, Clean(s.dirs, strays), s.calls)
  }

  lemma {:induction false} CleanAppend(ds: seq<MoveDir>, d: MoveDir, strays: set<Path>)
    ensures Clean(ds + [d], strays) == Clean(ds, strays) + if d.oldPath in strays then [] else [d]
  {
    if ds == [] {
      assert ds + [d] == [d] && [d][1..] == [];
    } else {
      assert (ds + [d])[1..] == ds[1..] + [d];
      CleanAppend(ds[1..], d, strays);
    }
  }

  /** A record that is found is found among the clean ones, and removing or changing it comes to the same. */
  ghost predicate Corresponds(ds: seq<MoveDir>, strays: set<Path>, k: nat, k': nat, d: MoveDir) {
    var r := Clean(ds, strays);
    && k <= |ds| && k' <= |r| && (k == |ds| <==> k' == |r|)
    && (k < |ds| ==>
          && r[k'] == ds[k] && Clean(Removed(ds, k), strays) == Removed(r, k')
          && (d.oldPath !in strays ==> Clean(ds[k := d], strays) == r[k' := d]))
  }

  lemma CorrespondsCons(ds: seq<MoveDir>, strays: set<Path>, k: nat, k': nat, d: MoveDir)
    requires ds != [] && Corresponds(ds[1..], strays, k, k', d)
    ensures Corresponds(ds, strays, k + 1, if ds[0].oldPath in strays then k' else k' + 1, d)
  {
    var rest, first := ds[1..], ds[0];
    var r := Clean(rest, strays);
    if k < |rest| {
      assert Removed(ds, k + 1)[1..] == Removed(rest, k) && Removed(ds, k + 1)[0] == first;
      assert ds[k + 1 := d][1..] == rest[k := d] && ds[k + 1 := d][0] == first;
      if first.oldPath !in strays {
        assert Removed([first] + r, k' + 1) == [first] + Removed(r, k');
        assert ([first] + r)[k' + 1 := d] == [first] + r[k' := d];
      }
    }
  }

  lemma FirstOf(first: MoveDir, rest: seq<MoveDir>, d: MoveDir)
    ensures Removed([first] + rest, 0) == rest && ([first] + rest)[0 := d] == [d] + rest
  {
  }

  lemma CorrespondsFirst(ds: seq<MoveDir>, strays: set<Path>, d: MoveDir)
    requires ds == [] || ds[0].oldPath !in strays
    ensures Corresponds(ds, strays, 0, 0, d)
  {
    if ds != [] {
      assert ds == [ds[0]] + ds[1..];
      FirstOf(ds[0], ds[1..], d);
      FirstOf(ds[0], Clean(ds[1..], strays), d);
      CleanCons(ds[0], ds[1..], strays);
      CleanCons(d, ds[1..], strays);
    }
  }

  lemma {:induction false} CleanFindOld(ds: seq<MoveDir>, strays: set<Path>, path: Path, d: MoveDir)
    requires path !in strays
    ensures Corresponds(ds, strays, FindOld(ds, path), FindOld(Clean(ds, strays), path), d)
  {
    if ds == [] || ds[0].oldPath == path {
      CorrespondsFirst(ds, strays, d);
    } else {
      CleanFindOld(ds[1..], strays, path, d);
      CorrespondsCons(ds, strays, FindOld(ds[1..], path), FindOld(Clean(ds[1..], strays), path), d);
    }
  }

  lemma {:induction false} CleanFindWatched(ds: seq<MoveDir>, strays: set<Path>, cookie: nat, d: MoveDir)
    requires forall k :: 0 <= k < |ds| && ds[k].cookie == cookie ==> ds[k].oldPath !in strays
    ensures Corresponds(ds, strays, FindWatched(ds, cookie), FindWatched(Clean(ds, strays), cookie), d)
  {
    if ds == [] || (ds[0].cookie == cookie && ds[0].wd > 0) {
      CorrespondsFirst(ds, strays, d);
    } else {
      var rest, r := ds[1..], Clean(ds[1..], strays);
      CleanFindWatched(rest, strays, cookie, d);
      CorrespondsCons(ds, strays, FindWatched(rest, cookie), FindWatched(r, cookie), d);
      if ds[0].oldPath !in strays {
        FindWatchedCons(ds[0], r, cookie);
      }
      assert FindWatched(Clean(ds, strays), cookie) ==
             if ds[0].oldPath in strays then FindWatched(r, cookie) else FindWatched(r, cookie) + 1;
    }
  }

  lemma FindWatchedCons(d: MoveDir, rest: seq<MoveDir>, cookie: nat)
    ensures FindWatched([d] + rest, cookie) ==
            if d.cookie == cookie && d.wd > 0 then 0 else 1 + FindWatched(rest, cookie)
  {
    assert ([d] + rest)[1..] == rest;
  }

  function Noted(d: MoveDir, cookie: nat, path: Path): MoveDir {
    if d.cookie == cookie then d.(newPath := path) else d
  }

  lemma NoteCons(d: MoveDir, rest: seq<MoveDir>, cookie: nat, path: Path, n: nat)
    ensures NoteNew([d] + rest, cookie, path, n + 1) == [Noted(d, cookie, path)] + NoteNew(rest, cookie, path, n)
  {
  }

  lemma NoteNone(ds: seq<MoveDir>, cookie: nat, path: Path)
    ensures NoteNew(ds, cookie, path, 0) == ds
  {
  }

  /** Noting a path does not change which record is found. */
  lemma {:induction false} FindNoted(ds: seq<MoveDir>, cookie: nat, path: Path)
    ensures FindWatched(NoteNew(ds, cookie, path, FindWatched(ds, cookie)), cookie) == FindWatched(ds, cookie)
  {
    if ds == [] || (ds[0].cookie == cookie && ds[0].wd > 0) {
      NoteNone(ds, cookie, path);
    } else {
      FindNoted(ds[1..], cookie, path);
      assert ds == [ds[0]] + ds[1..];
      NoteCons(ds[0], ds[1..], cookie, path, FindWatched(ds[1..], cookie));
    }
  }

  lemma {:induction false} CleanNoted(ds: seq<MoveDir>, strays: set<Path>, cookie: nat, path: Path)
    requires forall k :: 0 <= k < |ds| && ds[k].cookie == cookie ==> ds[k].oldPath !in strays
    ensures var r := Clean(ds, strays);
            Clean(NoteNew(ds, cookie, path, FindWatched(ds, cookie)), strays) ==
            NoteNew(r, cookie, path, FindWatched(r, cookie))
  {
    if ds == [] || (ds[0].cookie == cookie && ds[0].wd > 0) {
      NoteNone(ds, cookie, path);
      NoteNone(Clean(ds, strays), cookie, path);
    } else {
      var rest := ds[1..];
      CleanNoted(rest, strays, cookie, path);
      assert ds == [ds[0]] + rest;
      NoteCons(ds[0], rest, cookie, path, FindWatched(rest, cookie));
      CleanCons(Noted(ds[0], cookie, path), NoteNew(rest, cookie, path, FindWatched(rest, cookie)), strays);
      if ds[0].oldPath !in strays {
        var r := Clean(rest, strays);
        assert ([ds[0]] + r)[1..] == r;
        NoteCons(ds[0], r, cookie, path, FindWatched(r, cookie));
      }
    }
  }

  lemma CleanCons(d: MoveDir, rest: seq<MoveDir>, strays: set<Path>)
    ensures Clean([d] + rest, strays) == (if d.oldPath in strays then [] else [d]) + Clean(rest, strays)
  {
    assert ([d] + rest)[1..] == rest;
  }

  // ---------------------------------------------------------------- one event

  /** A stray record has a stray cookie or none, and only stray records have stray cookies. */
  ghost predicate IsStraight(d: MoveDir, strays: set<Path>, cookies: set<nat>) {
    if d.oldPath in strays then d.cookie == 0 || d.cookie in cookies else d.cookie !in cookies
  }

  ghost predicate AreStraight(ds: seq<MoveDir>, strays: set<Path>, cookies: set<nat>) {
    forall k :: 0 <= k < |ds| ==> IsStraight(ds[k], strays, cookies)
  }

  /** An event that has to do with no stray: neither its cookie nor its path, where it is looked up, is one. */
  ghost predicate IsPlain(s: State, e: Event, strays: set<Path>, cookies: set<nat>) {
    && e.wd in s.watch && e.cookie !in cookies && (e.kind.Self? || e.cookie != 0)
    && (e.kind.From? && e.isDir ==> Entry(s.watch[e.wd], e.name) !in strays)
    && (e.kind.Self? ==> s.watch[e.wd] !in strays)
  }

  /** It does to the clean stores what it does to the stores. */
  lemma CleanHandle(s: State, e: Event, strays: set<Path>, cookies: set<nat>)
    requires AreStraight(s.dirs, strays, cookies) && IsPlain(s, e, strays, cookies) && 0 !in cookies
    ensures CleanState(Handle(s, e), strays, cookies) == Handle(CleanState(s, strays, cookies), e)
  {
    var path := Entry(s.watch[e.wd], e.name);
    if e.kind.Self? {
      CleanSelf(s, e.wd, s.watch[e.wd], strays, cookies);
    } else if !e.isDir {
      CleanFile(s, e.kind, e.cookie, path, strays, cookies);
    } else if e.kind.From? {
      CleanFrom(s, e.cookie, path, strays, cookies);
    } else {
      CleanTo(s, e.cookie, path, strays, cookies);
    }
  }

  lemma CleanFile(s: State, kind: Kind, cookie: nat, path: Path, strays: set<Path>, cookies: set<nat>)
    requires cookie !in cookies
    ensures CleanState(FileMove(s, kind, cookie, path), strays, cookies) ==
            FileMove(CleanState(s, strays, cookies), kind, cookie, path)
  {
    FilesApart(s.files, cookie, path, cookies);
  }

  lemma FilesApart(files: map<nat, Path>, cookie: nat, path: Path, cookies: set<nat>)
    requires cookie !in cookies
    ensures files[cookie := path] - cookies == (files - cookies)[cookie := path]
    ensures (files - {cookie}) - cookies == (files - cookies) - {cookie}
    ensures cookie in files <==> cookie in files - cookies
  {
  }

  lemma CleanFrom(s: State, cookie: nat, path: Path, strays: set<Path>, cookies: set<nat>)
    requires AreStraight(s.dirs, strays, cookies) && cookie !in cookies && path !in strays
    ensures CleanState(DirFrom(s, cookie, path), strays, cookies) ==
            DirFrom(CleanState(s, strays, cookies), cookie, path)
  {
    var k := FindOld(s.dirs, path);
    FilesApart(s.files, cookie, path, cookies);
    if k == |s.dirs| {
      CleanFindOld(s.dirs, strays, path, MoveDir(-1, cookie, path, ""));
      CleanAppend(s.dirs, MoveDir(-1, cookie, path, if cookie in s.files then s.files[cookie] else ""), strays);
    } else {
      CleanFindOld(s.dirs, strays, path, s.dirs[k].(cookie := cookie));
      FoundHasPath(s.dirs, path);
    }
  }

  lemma {:induction false} FoundHasPath(ds: seq<MoveDir>, path: Path)
    ensures FindOld(ds, path) < |ds| ==> ds[FindOld(ds, path)].oldPath == path
  {
    if ds != [] && ds[0].oldPath != path {
      FoundHasPath(ds[1..], path);
    }
  }

  lemma CleanSelf(s: State, wd: int, path: Path, strays: set<Path>, cookies: set<nat>)
    requires AreStraight(s.dirs, strays, cookies) && path !in strays
    ensures CleanState(DirSelf(s, wd, path), strays, cookies) == DirSelf(CleanState(s, strays, cookies), wd, path)
  {
    var k := FindOld(s.dirs, path);
    if k == |s.dirs| {
      CleanFindOld(s.dirs, strays, path, MoveDir(wd, 0, path, ""));
      CleanAppend(s.dirs, MoveDir(wd, 0, path, ""), strays);
    } else {
      FoundHasPath(s.dirs, path);
      CleanFindOld(s.dirs, strays, path, s.dirs[k].(wd := wd));
      assert IsStraight(s.dirs[k], strays, cookies);
      FilesApart(s.files, s.dirs[k].cookie, path, cookies);
    }
  }

  lemma CleanTo(s: State, cookie: nat, path: Path, strays: set<Path>, cookies: set<nat>)
    requires AreStraight(s.dirs, strays, cookies) && cookie !in cookies && cookie != 0
    ensures CleanState(DirTo(s, cookie, path), strays, cookies) == DirTo(CleanState(s, strays, cookies), cookie, path)
  {
    var r := Clean(s.dirs, strays);
    var n, n' := FindWatched(s.dirs, cookie), FindWatched(r, cookie);
    var ds, ds' := NoteNew(s.dirs, cookie, path, n), NoteNew(r, cookie, path, n');
    forall k | 0 <= k < |s.dirs| && s.dirs[k].cookie == cookie
      ensures s.dirs[k].oldPath !in strays
    {
      assert IsStraight(s.dirs[k], strays, cookies);
    }
    CleanNoted(s.dirs, strays, cookie, path);
    FindNoted(s.dirs, cookie, path);
    FindNoted(r, cookie, path);
    CleanFindWatched(ds, strays, cookie, MoveDir(0, 0, "", ""));
    FilesApart(s.files, cookie, path, cookies);
  }

  /** Its records are those there were, or have to do with no stray. */
  lemma PlainRecords(s: State, e: Event, strays: set<Path>, cookies: set<nat>, k: nat)
    requires AreStraight(s.dirs, strays, cookies) && IsPlain(s, e, strays, cookies) && 0 !in cookies
    requires k < |Handle(s, e).dirs|
    ensures var d := Handle(s, e).dirs[k]; d in s.dirs || (d.oldPath !in strays && d.cookie !in cookies)
  {
    var path := if e.kind.Self? then s.watch[e.wd] else Entry(s.watch[e.wd], e.name);
    FoundHasPath(s.dirs, path);
    var x := FindOld(s.dirs, path);
    if x < |s.dirs| {
      assert IsStraight(s.dirs[x], strays, cookies);
    }
    if e.kind.To? && e.isDir {
      NotedRecords(s.dirs, e.cookie, path, strays, cookies);
    }
  }

  lemma NotedRecords(ds: seq<MoveDir>, cookie: nat, path: Path, strays: set<Path>, cookies: set<nat>)
    requires AreStraight(ds, strays, cookies) && cookie !in cookies && cookie != 0
    ensures forall k :: 0 <= k < |ds| ==>
              var d := NoteNew(ds, cookie, path, FindWatched(ds, cookie))[k];
              d in ds || (d.oldPath !in strays && d.cookie !in cookies)
  {
    forall k | 0 <= k < |ds|
      ensures var d := NoteNew(ds, cookie, path, FindWatched(ds, cookie))[k];
              d in ds || (d.oldPath !in strays && d.cookie !in cookies)
    {
      assert IsStraight(ds[k], strays, cookies) && ds[k] in ds;
    }
  }

  // ---------------------------------------------------------------- many moves

  /** A directory's watch says its old path; a file has none. */
  predicate IsReported(s0: State, m: Move) {
    m.isDir ==> PathOf(s0.watch, m.wd) == Old(s0, m)
  }

  /** Moves whose cookies, watches and paths do not meet, those that their watches say included; and nothing of
      theirs is in the stores. */
  ghost predicate DoNotMeet(s0: State, ms: seq<Move>) {
    && (forall i :: 0 <= i < |ms| ==> Starts(s0, ms[i]))
    && (forall i, j :: 0 <= i < |ms| && 0 <= j < |ms| && i != j ==> AreTwo(s0, ms[i], ms[j]))
  }

  ghost predicate Starts(s0: State, m: Move) {
    && m.cookie != 0 && m.oldDir in s0.watch && m.newDir in s0.watch && m.cookie !in s0.files
    && (m.isDir ==> m.wd > 0 && m.wd in s0.watch && m.oldDir != m.wd && m.newDir != m.wd)
    && (forall k :: 0 <= k < |s0.dirs| ==>
          && s0.dirs[k].cookie != m.cookie
          && (m.isDir ==> s0.dirs[k].oldPath != Old(s0, m) && s0.dirs[k].oldPath != PathOf(s0.watch, m.wd)))
  }

  ghost predicate AreTwo(s0: State, m: Move, m': Move) {
    && m.cookie != m'.cookie
    && (m.isDir ==> m'.oldDir != m.wd && m'.newDir != m.wd)
    && (m.isDir && m'.isDir ==>
          && m.wd != m'.wd && Old(s0, m) != Old(s0, m') && Old(s0, m) != PathOf(s0.watch, m'.wd)
          && PathOf(s0.watch, m.wd) != PathOf(s0.watch, m'.wd))
  }

  /** The directories whose watches say another path. */
  ghost function Stale(s0: State, ms: seq<Move>): set<nat> {
    set i: nat | i < |ms| && !IsReported(s0, ms[i])
  }

  ghost function StrayPaths(s0: State, ms: seq<Move>): set<Path> {
    (set i | i in Stale(s0, ms) :: Old(s0, ms[i])) + (set i | i in Stale(s0, ms) :: PathOf(s0.watch, ms[i].wd))
  }

  ghost function StrayCookies(s0: State, ms: seq<Move>): set<nat> {
    set i | i in Stale(s0, ms) :: ms[i].cookie
  }

  /** The moves that are reported, and in place of the others files that never move. */
  function Tamed(s0: State, ms: seq<Move>): (r: seq<Move>)
    ensures |r| == |ms|
    ensures forall i :: 0 <= i < |ms| ==> r[i] == if IsReported(s0, ms[i]) then ms[i] else ms[i].(isDir := false)
  {
    seq(|ms|, i requires 0 <= i < |ms| => if IsReported(s0, ms[i]) then ms[i] else ms[i].(isDir := false))
  }

  lemma TamedApart(s0: State, ms: seq<Move>)
    requires DoNotMeet(s0, ms)
    ensures Apart(s0, Tamed(s0, ms))
  {
    var r := Tamed(s0, ms);
    forall i | 0 <= i < |ms|
      ensures Starts(s0, ms[i])
    {
    }
    forall i, j | 0 <= i < |ms| && 0 <= j < |ms| && i != j
      ensures AreTwo(s0, ms[i], ms[j])
    {
    }
    assert DirsApart(s0, r);
  }

  /** The events of the moves that are reported. */
  function Kept(s0: State, ms: seq<Move>, es: seq<Step>): (r: seq<Step>)
    requires forall k :: 0 <= k < |es| ==> es[k].0 < |ms|
    ensures forall k :: 0 <= k < |r| ==> r[k].0 < |ms|
  {
    if es == [] then []
    else
      var init, last := Kept(s0, ms, es[..|es| - 1]), es[|es| - 1];
      if IsReported(s0, ms[last.0]) then init + [last] else init
  }

  lemma {:induction false} KeptAre(s0: State, ms: seq<Move>, es: seq<Step>)
    requires IsInterleaving(ms, es)
    ensures IsInterleaving(Tamed(s0, ms), Kept(s0, ms, es))
    ensures forall e :: e in Kept(s0, ms, es) <==> e in es && IsReported(s0, ms[e.0])
  {
    if es != [] {
      var init, last := es[..|es| - 1], es[|es| - 1];
      assert es == init + [last];
      KeptAre(s0, ms, init);
      assert last !in init;
    }
  }

  /** What the records say of a stale move: they never meet. */
  ghost predicate NeverMeet(s0: State, m: Move, i: nat, es: seq<Step>, d: MoveDir) {
    && (d.cookie == m.cookie ==> d.wd <= 0)
    && (d.oldPath == Old(s0, m) ==> (i, From) in es)
    && (d.oldPath == PathOf(s0.watch, m.wd) ==> (i, Self) in es)
  }

  ghost predicate Tangled(s0: State, ms: seq<Move>, es: seq<Step>, s: State) {
    && AreStraight(s.dirs, StrayPaths(s0, ms), StrayCookies(s0, ms))
    && forall i, k :: i in Stale(s0, ms) && 0 <= k < |s.dirs| ==> NeverMeet(s0, ms[i], i, es, s.dirs[k])
  }

  /** An event of a move that is reported has to do with no stray. */
  lemma PlainEvent(s0: State, ms: seq<Move>, p: Progress, s: State, t: State, i: nat, kind: Kind)
    requires DoNotMeet(s0, ms) && Canonical(s0, Tamed(s0, ms), p, t) && s.watch == t.watch
    requires Awaited(p, Tamed(s0, ms), i, kind) && IsReported(s0, ms[i])
    ensures IsPlain(s, EventOf(ms[i], kind), StrayPaths(s0, ms), StrayCookies(s0, ms))
  {
    ToLocal(s0, Tamed(s0, ms), p, t, i);
    IsNoStray(s0, ms, i);
  }

  lemma IsNoStray(s0: State, ms: seq<Move>, i: nat)
    requires DoNotMeet(s0, ms) && i < |ms| && IsReported(s0, ms[i])
    ensures ms[i].cookie !in StrayCookies(s0, ms) && 0 !in StrayCookies(s0, ms)
    ensures ms[i].isDir ==> Old(s0, ms[i]) !in StrayPaths(s0, ms)
  {
    forall j | j in Stale(s0, ms)
      ensures ms[j].cookie != 0 && ms[j].cookie != ms[i].cookie
      ensures ms[i].isDir ==> Old(s0, ms[i]) != Old(s0, ms[j]) && Old(s0, ms[i]) != PathOf(s0.watch, ms[j].wd)
    {
      assert Starts(s0, ms[j]) && AreTwo(s0, ms[i], ms[j]);
    }
  }

  lemma NoCookieNought(s0: State, ms: seq<Move>)
    requires DoNotMeet(s0, ms)
    ensures 0 !in StrayCookies(s0, ms)
  {
    forall j | j in Stale(s0, ms)
      ensures ms[j].cookie != 0
    {
      assert Starts(s0, ms[j]);
    }
  }

  /** A record that has to do with no stray. */
  lemma PlainNeverMeets(s0: State, ms: seq<Move>, j: nat, es: seq<Step>, d: MoveDir)
    requires j in Stale(s0, ms) && d.oldPath !in StrayPaths(s0, ms) && d.cookie !in StrayCookies(s0, ms)
    ensures NeverMeet(s0, ms[j], j, es, d)
  {
    assert Old(s0, ms[j]) in StrayPaths(s0, ms) && PathOf(s0.watch, ms[j].wd) in StrayPaths(s0, ms);
    assert ms[j].cookie in StrayCookies(s0, ms);
  }

  lemma MeetLater(s0: State, m: Move, j: nat, es: seq<Step>, last: Step, d: MoveDir)
    requires NeverMeet(s0, m, j, es, d)
    ensures NeverMeet(s0, m, j, es + [last], d)
  {
  }

  lemma StaysTangled(s0: State, ms: seq<Move>, es: seq<Step>, last: Step, s: State)
    requires DoNotMeet(s0, ms) && Tangled(s0, ms, es, s) && last.0 < |ms|
    requires var e := EventOf(ms[last.0], last.1);
             IsPlain(s, e, StrayPaths(s0, ms), StrayCookies(s0, ms))
    ensures Tangled(s0, ms, es + [last], Handle(s, EventOf(ms[last.0], last.1)))
  {
    var e, strays, cookies := EventOf(ms[last.0], last.1), StrayPaths(s0, ms), StrayCookies(s0, ms);
    var s' := Handle(s, e);
    NoCookieNought(s0, ms);
    forall k | 0 <= k < |s'.dirs|
      ensures IsStraight(s'.dirs[k], strays, cookies)
      ensures forall j :: j in Stale(s0, ms) ==> NeverMeet(s0, ms[j], j, es + [last], s'.dirs[k])
    {
      var d := s'.dirs[k];
      PlainRecords(s, e, strays, cookies, k);
      if d in s.dirs {
        var x :| 0 <= x < |s.dirs| && s.dirs[x] == d;
        assert IsStraight(s.dirs[x], strays, cookies);
        forall j | j in Stale(s0, ms)
          ensures NeverMeet(s0, ms[j], j, es + [last], d)
        {
          MeetLater(s0, ms[j], j, es, last, s.dirs[x]);
        }
      } else {
        forall j | j in Stale(s0, ms)
          ensures NeverMeet(s0, ms[j], j, es + [last], d)
        {
          PlainNeverMeets(s0, ms, j, es + [last], d);
        }
      }
    }
  }

  // ---------------------------------------------------------------- an event of a stale move

  /** The watches that an event of it reads are as they were. */
  lemma StaleWatch(s0: State, ms: seq<Move>, p: Progress, watch: map<int, Path>, i: nat)
    requires DoNotMeet(s0, ms) && i in Stale(s0, ms) && |p.seen| == |ms|
    requires WatchMatches(s0, Tamed(s0, ms), p, watch)
    ensures ms[i].wd in watch && watch[ms[i].wd] == PathOf(s0.watch, ms[i].wd)
    ensures ms[i].oldDir in watch && watch[ms[i].oldDir] == s0.watch[ms[i].oldDir]
    ensures ms[i].newDir in watch && watch[ms[i].newDir] == s0.watch[ms[i].newDir]
  {
    var r, m := Tamed(s0, ms), ms[i];
    assert Starts(s0, m);
    forall j | 0 <= j < |r| && r[j].isDir
      ensures r[j].wd != m.wd && r[j].wd != m.oldDir && r[j].wd != m.newDir
    {
      assert j != i && AreTwo(s0, ms[j], m);
    }
  }

  lemma {:induction false} NoOldPath(ds: seq<MoveDir>, path: Path)
    requires forall k :: 0 <= k < |ds| ==> ds[k].oldPath != path
    ensures FindOld(ds, path) == |ds|
  {
    FindOldIs(ds, path, |ds|);
  }

  /** A record more, or a path more with the cookie's records noted. */
  ghost predicate IsStrayed(s0: State, m: Move, kind: Kind, s: State, s': State) {
    match kind
    case From => exists into :: s' == s.(dirs := s.dirs + [MoveDir(-1, m.cookie, Old(s0, m), into)])
    case Self => s' == s.(dirs := s.dirs + [MoveDir(m.wd, 0, PathOf(s0.watch, m.wd), "")])
    case To =>
      s' == s.(files := s.files[m.cookie := New(s0, m)], dirs := NoteNew(s.dirs, m.cookie, New(s0, m), |s.dirs|))
  }

  /** What an event of a stale move does. */
  lemma StaleEffect(s0: State, ms: seq<Move>, es: seq<Step>, s: State, i: nat, kind: Kind)
    requires i in Stale(s0, ms) && Starts(s0, ms[i]) && Tangled(s0, ms, es, s) && (i, kind) !in es
    requires ms[i].wd in s.watch && s.watch[ms[i].wd] == PathOf(s0.watch, ms[i].wd)
    requires ms[i].oldDir in s.watch && s.watch[ms[i].oldDir] == s0.watch[ms[i].oldDir]
    requires ms[i].newDir in s.watch && s.watch[ms[i].newDir] == s0.watch[ms[i].newDir]
    ensures IsStrayed(s0, ms[i], kind, s, Handle(s, EventOf(ms[i], kind)))
  {
    var m := ms[i];
    assert forall k :: 0 <= k < |s.dirs| ==> NeverMeet(s0, m, i, es, s.dirs[k]);
    match kind
    case From =>
      NoOldPath(s.dirs, Old(s0, m));
      var into := if m.cookie in s.files then s.files[m.cookie] else "";
      assert Handle(s, EventOf(m, From)) == s.(dirs := s.dirs + [MoveDir(-1, m.cookie, Old(s0, m), into)]);
    case Self => NoOldPath(s.dirs, PathOf(s0.watch, m.wd));
    case To => FindWatchedIs(s.dirs, m.cookie, |s.dirs|);
  }

  lemma {:induction false} CleanStrayNoted(ds: seq<MoveDir>, strays: set<Path>, cookie: nat, path: Path)
    requires forall k :: 0 <= k < |ds| && ds[k].cookie == cookie ==> ds[k].oldPath in strays
    ensures Clean(NoteNew(ds, cookie, path, |ds|), strays) == Clean(ds, strays)
  {
    if ds == [] {
      NoteNone(ds, cookie, path);
    } else {
      CleanStrayNoted(ds[1..], strays, cookie, path);
      assert ds == [ds[0]] + ds[1..];
      NoteCons(ds[0], ds[1..], cookie, path, |ds[1..]|);
      CleanCons(Noted(ds[0], cookie, path), NoteNew(ds[1..], cookie, path, |ds[1..]|), strays);
    }
  }

  /** Nothing of it shows in the clean stores. */
  lemma StaleIsClean(s0: State, ms: seq<Move>, es: seq<Step>, s: State, s': State, i: nat, kind: Kind)
    requires i in Stale(s0, ms) && Tangled(s0, ms, es, s)
    requires IsStrayed(s0, ms[i], kind, s, s')
    ensures var strays, cookies := StrayPaths(s0, ms), StrayCookies(s0, ms);
            CleanState(s', strays, cookies) == CleanState(s, strays, cookies)
  {
    var m, strays, cookies := ms[i], StrayPaths(s0, ms), StrayCookies(s0, ms);
    assert Old(s0, m) in strays && PathOf(s0.watch, m.wd) in strays && m.cookie in cookies;
    match kind
    case From =>
      var into :| s' == s.(dirs := s.dirs + [MoveDir(-1, m.cookie, Old(s0, m), into)]);
      CleanAppend(s.dirs, MoveDir(-1, m.cookie, Old(s0, m), into), strays);
    case Self => CleanAppend(s.dirs, MoveDir(m.wd, 0, PathOf(s0.watch, m.wd), ""), strays);
    case To =>
      assert s'.files - cookies == s.files - cookies;
      forall k | 0 <= k < |s.dirs| && s.dirs[k].cookie == m.cookie
        ensures s.dirs[k].oldPath in strays
      {
        assert IsStraight(s.dirs[k], strays, cookies);
      }
      CleanStrayNoted(s.dirs, strays, m.cookie, New(s0, m));
  }

  /** Its records never meet, and no others do with them. */
  lemma StaleIsTangled(s0: State, ms: seq<Move>, es: seq<Step>, s: State, s': State, i: nat, kind: Kind)
    requires DoNotMeet(s0, ms) && i in Stale(s0, ms) && Tangled(s0, ms, es, s)
    requires IsStrayed(s0, ms[i], kind, s, s')
    ensures Tangled(s0, ms, es + [(i, kind)], s')
  {
    var m, last := ms[i], (i, kind);
    var strays, cookies := StrayPaths(s0, ms), StrayCookies(s0, ms);
    assert Old(s0, m) in strays && PathOf(s0.watch, m.wd) in strays && m.cookie in cookies;
    forall k | 0 <= k < |s'.dirs|
      ensures IsStraight(s'.dirs[k], strays, cookies)
      ensures forall j :: j in Stale(s0, ms) ==> NeverMeet(s0, ms[j], j, es + [last], s'.dirs[k])
    {
      if k < |s.dirs| {
        var d := s.dirs[k];
        assert IsStraight(d, strays, cookies);
        assert s'.dirs[k] == d || s'.dirs[k] == d.(newPath := New(s0, m));
        forall j | j in Stale(s0, ms)
          ensures NeverMeet(s0, ms[j], j, es + [last], s'.dirs[k])
        {
          MeetLater(s0, ms[j], j, es, last, d);
        }
      } else {
        forall j | j in Stale(s0, ms)
          ensures NeverMeet(s0, ms[j], j, es + [last], s'.dirs[k])
        {
          NewNeverMeets(s0, ms, es, i, kind, s'.dirs[k], j);
        }
      }
    }
  }

  lemma NewNeverMeets(s0: State, ms: seq<Move>, es: seq<Step>, i: nat, kind: Kind, d: MoveDir, j: nat)
    requires DoNotMeet(s0, ms) && i in Stale(s0, ms) && j in Stale(s0, ms)
    requires if kind.From? then d.wd == -1 && d.cookie == ms[i].cookie && d.oldPath == Old(s0, ms[i])
             else kind.Self? && d.cookie == 0 && d.oldPath == PathOf(s0.watch, ms[i].wd)
    ensures NeverMeet(s0, ms[j], j, es + [(i, kind)], d)
  {
    assert Starts(s0, ms[j]) && (es + [(i, kind)])[|es|] == (i, kind);
    if i != j {
      assert AreTwo(s0, ms[i], ms[j]) && AreTwo(s0, ms[j], ms[i]);
    }
  }

  // ---------------------------------------------------------------- runs

  /** The run, and that of the moves that are reported alone. */
  ghost predicate Agree(s0: State, ms: seq<Move>, es: seq<Step>, s: State, t: State) {
    Tangled(s0, ms, es, s) && CleanState(s, StrayPaths(s0, ms), StrayCookies(s0, ms)) == t
  }

  lemma {:induction false} NothingStray(ds: seq<MoveDir>, strays: set<Path>)
    requires forall k :: 0 <= k < |ds| ==> ds[k].oldPath !in strays
    ensures Clean(ds, strays) == ds
  {
    if ds != [] {
      NothingStray(ds[1..], strays);
    }
  }

  lemma AgreeAtFirst(s0: State, ms: seq<Move>)
    requires DoNotMeet(s0, ms)
    ensures Agree(s0, ms, [], s0, s0)
  {
    var strays, cookies := StrayPaths(s0, ms), StrayCookies(s0, ms);
    forall k, j | 0 <= k < |s0.dirs| && j in Stale(s0, ms)
      ensures s0.dirs[k].cookie != ms[j].cookie && s0.dirs[k].oldPath != Old(s0, ms[j])
      ensures s0.dirs[k].oldPath != PathOf(s0.watch, ms[j].wd)
    {
      assert Starts(s0, ms[j]);
    }
    forall j | j in Stale(s0, ms)
      ensures ms[j].cookie !in s0.files
    {
      assert Starts(s0, ms[j]);
    }
    NothingStray(s0.dirs, strays);
    assert s0.files - cookies == s0.files;
  }

  lemma AgreeThen(s0: State, ms: seq<Move>, es: seq<Step>, last: Step, s: State, p: Progress, t: State)
    requires DoNotMeet(s0, ms) && Agree(s0, ms, es, s, t) && Canonical(s0, Tamed(s0, ms), p, t)
    requires last.0 < |ms| && last !in es && last.1 in AllKinds(ms[last.0])
    requires IsReported(s0, ms[last.0]) ==> Awaited(p, Tamed(s0, ms), last.0, last.1)
    ensures var e := EventOf(ms[last.0], last.1);
            Agree(s0, ms, es + [last], Handle(s, e), if IsReported(s0, ms[last.0]) then Handle(t, e) else t)
  {
    var (i, kind) := last;
    var e := EventOf(ms[i], kind);
    if IsReported(s0, ms[i]) {
      PlainEvent(s0, ms, p, s, t, i, kind);
      NoCookieNought(s0, ms);
      StaysTangled(s0, ms, es, last, s);
      CleanHandle(s, e, StrayPaths(s0, ms), StrayCookies(s0, ms));
    } else {
      assert i in Stale(s0, ms) && Starts(s0, ms[i]);
      StaleWatch(s0, ms, p, t.watch, i);
      StaleEffect(s0, ms, es, s, i, kind);
      StaleIsClean(s0, ms, es, s, Handle(s, e), i, kind);
      StaleIsTangled(s0, ms, es, s, Handle(s, e), i, kind);
    }
  }

  lemma KeptIsCanonical(s0: State, ms: seq<Move>, es: seq<Step>, last: Step)
    requires DoNotMeet(s0, ms) && IsInterleaving(ms, es) && last !in es
    requires last.0 < |ms| && last.1 in AllKinds(ms[last.0])
    ensures var r, kept := Tamed(s0, ms), Kept(s0, ms, es);
            && Canonical(s0, r, ProgressOf(r, kept), Run(s0, r, kept))
            && (IsReported(s0, ms[last.0]) ==> Awaited(ProgressOf(r, kept), r, last.0, last.1))
  {
    TamedApart(s0, ms);
    KeptAre(s0, ms, es);
    RunsAreCanonical(s0, Tamed(s0, ms), Kept(s0, ms, es));
    SeenIs(Tamed(s0, ms), Kept(s0, ms, es), last.0, last.1);
  }

  /** In every prefix of every interleaving the stores are, but for the strays, those of the moves that are
      reported alone. */
  lemma {:induction false} RunsAgree(s0: State, ms: seq<Move>, es: seq<Step>)
    requires DoNotMeet(s0, ms) && IsInterleaving(ms, es)
    ensures Agree(s0, ms, es, Run(s0, ms, es), Run(s0, Tamed(s0, ms), Kept(s0, ms, es)))
  {
    if es == [] {
      AgreeAtFirst(s0, ms);
    } else {
      var init, last, r := es[..|es| - 1], es[|es| - 1], Tamed(s0, ms);
      assert es == init + [last] && last !in init;
      RunsAgree(s0, ms, init);
      var kept := Kept(s0, ms, init);
      KeptIsCanonical(s0, ms, init, last);
      assert (kept + [last])[..|kept|] == kept;
      AgreeThen(s0, ms, init, last, Run(s0, ms, init), ProgressOf(r, kept), Run(s0, r, kept));
    }
  }

  // ---------------------------------------------------------------- what is reported

  /** The moves of a list are those that are reported, each once. */
  ghost predicate ListsReported(s0: State, ms: seq<Move>, order: seq<nat>) {
    && InRange(order, |ms|) && (forall j, k :: 0 <= j < k < |order| ==> order[j] != order[k])
    && forall i: nat :: i in order <==> i < |ms| && IsReported(s0, ms[i])
  }

  /** Exactly the watches of the directories reported have changed, to the new paths. */
  ghost predicate WatchReported(s0: State, ms: seq<Move>, watch: map<int, Path>) {
    && watch.Keys == s0.watch.Keys
    && (forall i :: 0 <= i < |ms| && ms[i].isDir && IsReported(s0, ms[i]) ==>
          ms[i].wd in watch && watch[ms[i].wd] == New(s0, ms[i]))
    && (forall w :: w in watch && (forall i :: 0 <= i < |ms| && ms[i].isDir && IsReported(s0, ms[i]) ==> ms[i].wd != w)
          ==> watch[w] == s0.watch[w])
  }

  lemma SeenAtEnd(s0: State, ms: seq<Move>, es: seq<Step>, i: nat)
    requires DoNotMeet(s0, ms) && IsInterleaving(ms, es) && IsWhole(ms, es) && i < |ms|
    requires Listed(ProgressOf(Tamed(s0, ms), Kept(s0, ms, es)), Tamed(s0, ms))
    ensures var r := Tamed(s0, ms);
            var seen := ProgressOf(r, Kept(s0, ms, es)).seen[i];
            seen == if IsReported(s0, ms[i]) then AllKinds(r[i]) else {}
  {
    var r, kept := Tamed(s0, ms), Kept(s0, ms, es);
    KeptAre(s0, ms, es);
    forall kind: Kind
      ensures kind in ProgressOf(r, kept).seen[i] <==> IsReported(s0, ms[i]) && kind in AllKinds(r[i])
    {
      SeenIs(r, kept, i, kind);
    }
  }

  lemma {:induction false} SameCallsOf(s0: State, ms: seq<Move>, r: seq<Move>, order: seq<nat>)
    requires |r| == |ms| && InRange(order, |ms|) && forall k :: 0 <= k < |order| ==> r[order[k]] == ms[order[k]]
    ensures CallsOf(s0, r, order) == CallsOf(s0, ms, order)
  {
    if order != [] {
      SameCallsOf(s0, ms, r, order[..|order| - 1]);
    }
  }

  lemma FirstHasRecord(ms: seq<Move>, p: Progress)
    requires PendingListed(p, ms) && p.pending != []
    ensures p.pending[0] < |ms| && HasRecord(ms[p.pending[0]], p.seen[p.pending[0]])
  {
  }

  lemma DoneAreReported(s0: State, ms: seq<Move>, p: Progress)
    requires Listed(p, Tamed(s0, ms))
    requires forall i :: 0 <= i < |ms| ==>
               p.seen[i] == if IsReported(s0, ms[i]) then AllKinds(Tamed(s0, ms)[i]) else {}
    ensures p.pending == [] && ListsReported(s0, ms, p.done)
  {
    var r := Tamed(s0, ms);
    if p.pending != [] {
      FirstHasRecord(r, p);
    }
    forall i: nat
      ensures i in p.done <==> i < |ms| && IsReported(s0, ms[i])
    {
      if i < |ms| {
        assert IsDone(r[i], p.seen[i]) <==> IsReported(s0, ms[i]);
      }
    }
  }

  /** Of moves that do not meet, once all events have come, in whatever order: exactly the files and the directories
      whose watches say their old paths have been reported, each once; their watches have the new paths, and all
      others are as they were; and only strays are left in the stores. */
  lemma ExactlyTheseReported(s0: State, ms: seq<Move>, es: seq<Step>) returns (order: seq<nat>)
    requires DoNotMeet(s0, ms) && IsInterleaving(ms, es) && IsWhole(ms, es)
    ensures ListsReported(s0, ms, order)
    ensures var s := Run(s0, ms, es);
            && s.calls == s0.calls + CallsOf(s0, ms, order) && WatchReported(s0, ms, s.watch)
            && Clean(s.dirs, StrayPaths(s0, ms)) == s0.dirs
  {
    var r, kept := Tamed(s0, ms), Kept(s0, ms, es);
    var p, t := ProgressOf(r, kept), Run(s0, r, kept);
    RunsAgree(s0, ms, es);
    TamedApart(s0, ms);
    KeptAre(s0, ms, es);
    RunsAreCanonical(s0, r, kept);
    forall i | 0 <= i < |ms|
      ensures p.seen[i] == if IsReported(s0, ms[i]) then AllKinds(r[i]) else {}
    {
      SeenAtEnd(s0, ms, es, i);
    }
    DoneAreReported(s0, ms, p);
    order := p.done;
    SameCallsOf(s0, ms, r, order);
    ReportedWatch(s0, ms, p, t.watch);
  }

  lemma ReportedWatch(s0: State, ms: seq<Move>, p: Progress, watch: map<int, Path>)
    requires |p.seen| == |ms| && WatchMatches(s0, Tamed(s0, ms), p, watch)
    requires forall i :: 0 <= i < |ms| ==>
               p.seen[i] == if IsReported(s0, ms[i]) then AllKinds(Tamed(s0, ms)[i]) else {}
    ensures WatchReported(s0, ms, watch)
  {
    var r := Tamed(s0, ms);
    assert forall i :: 0 <= i < |ms| ==> (r[i].isDir <==> ms[i].isDir && IsReported(s0, ms[i]));
  }
}
