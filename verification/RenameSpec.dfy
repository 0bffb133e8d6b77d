/** Pairing the inotify events of renames: a directory that moves causes three events and a file two, in
    any order, and many moves can be under way. */
module RenameSpec {
  type Path = string

  /** A directory's move so far: what `MoveDirStorage` holds. */
  datatype MoveDir = MoveDir(wd: int, cookie: nat, oldPath: Path, newPath: Path)

  /** The calls to the file cache. */
  datatype Call = FileMoved(from: Path, into: Path) | DirMoved(from: Path, into: Path)

  datatype Kind = From | To | Self

  datatype Event = Event(wd: int, kind: Kind, isDir: bool, cookie: nat, name: string)

  /** The three stores, and the calls made. */
  datatype State = State(watch: map<int, Path>, files: map<nat, Path>, dirs: seq<MoveDir>, calls: seq<Call>)

  function Entry(parent: Path, name: string): Path {
    if name == "" then parent else parent + "/" + name
  }

  // ---------------------------------------------------------------- one event

  /** The first record of an old path, or the number of records. */
  function FindOld(ds: seq<MoveDir>, path: Path): (k: nat)
    ensures k <= |ds|
  {
    if ds == [] || ds[0].oldPath == path then 0 else 1 + FindOld(ds[1..], path)
  }

  /** The first record of a cookie whose watch is known, or the number of records. */
  function FindWatched(ds: seq<MoveDir>, cookie: nat): (k: nat)
    ensures k <= |ds|
  {
    if ds == [] || (ds[0].cookie == cookie && ds[0].wd > 0) then 0 else 1 + FindWatched(ds[1..], cookie)
  }

  /** The records of a cookie among the first `n` get the new path. */
  function NoteNew(ds: seq<MoveDir>, cookie: nat, path: Path, n: nat): (r: seq<MoveDir>)
    ensures |r| == |ds|
    ensures forall i :: 0 <= i < |ds| ==>
              r[i] == if i < n && ds[i].cookie == cookie then ds[i].(newPath := path) else ds[i]
  {
    seq(|ds|, i requires 0 <= i < |ds| =>
          if i < n && ds[i].cookie == cookie then ds[i].(newPath := path) else ds[i])
  }

  function Removed(ds: seq<MoveDir>, k: nat): seq<MoveDir>
    requires k < |ds|
  {
    ds[..k] + ds[k + 1..]
  }

  function FileMove(s: State, kind: Kind, cookie: nat, path: Path): State {
    if cookie in s.files then
      var other := s.files[cookie];
      s.(files := s.files - {cookie},
         calls := s.calls + [if kind.From? then FileMoved(path, other) else FileMoved(other, path)])
    else s.(files := s.files[cookie := path])
  }

  function DirFrom(s: State, cookie: nat, path: Path): State {
    var k := FindOld(s.dirs, path);
    if k == |s.dirs| then
      s.(dirs := s.dirs + [MoveDir(-1, cookie, path, if cookie in s.files then s.files[cookie] else "")])
    else if cookie in s.files then
      var into := s.files[cookie];
      State(s.watch[s.dirs[k].wd := into], s.files - {cookie}, Removed(s.dirs, k), s.calls + [DirMoved(path, into)])
    else s.(dirs := s.dirs[k := s.dirs[k].(cookie := cookie)])
  }

  function DirTo(s: State, cookie: nat, path: Path): State {
    var k := FindWatched(s.dirs, cookie);
    var ds := NoteNew(s.dirs, cookie, path, k);
    if k == |s.dirs| then s.(files := s.files[cookie := path], dirs := ds)
    else
      s.(watch := s.watch[ds[k].wd := path], dirs := Removed(ds, k), calls := s.calls + [DirMoved(ds[k].oldPath, path)])
  }

  function DirSelf(s: State, wd: int, path: Path): State {
    var k := FindOld(s.dirs, path);
    if k == |s.dirs| then s.(dirs := s.dirs + [MoveDir(wd, 0, path, "")])
    else
      var d := s.dirs[k];
      if d.cookie in s.files then
        State(s.watch[wd := d.newPath], s.files - {d.cookie}, Removed(s.dirs, k),
              s.calls + [DirMoved(d.oldPath, d.newPath)])
      else s.(dirs := s.dirs[k := d.(wd := wd)])
  }

  /** One event; looking up an unknown watch makes an empty entry. */
  function Handle(s: State, e: Event): State {
    var s := if e.wd in s.watch then s else s.(watch := s.watch[e.wd := ""]);
    var parent := s.watch[e.wd];
    var path := Entry(parent, e.name);
    match e.kind
    case From => if e.isDir then DirFrom(s, e.cookie, path) else FileMove(s, From, e.cookie, path)
    case To => if e.isDir then DirTo(s, e.cookie, path) else FileMove(s, To, e.cookie, path)
    case Self => DirSelf(s, e.wd, parent)
  }

  lemma {:induction false} FindOldIs(ds: seq<MoveDir>, path: Path, k: nat)
    requires k <= |ds| && (k < |ds| ==> ds[k].oldPath == path)
    requires forall i :: 0 <= i < k ==> ds[i].oldPath != path
    ensures FindOld(ds, path) == k
  {
    if k > 0 {
      FindOldIs(ds[1..], path, k - 1);
    }
  }

  lemma {:induction false} FindWatchedIs(ds: seq<MoveDir>, cookie: nat, k: nat)
    requires k <= |ds| && (k < |ds| ==> ds[k].cookie == cookie && ds[k].wd > 0)
    requires forall i :: 0 <= i < k ==> ds[i].cookie != cookie || ds[i].wd <= 0
    ensures FindWatched(ds, cookie) == k
  {
    if k > 0 {
      FindWatchedIs(ds[1..], cookie, k - 1);
    }
  }

  // ---------------------------------------------------------------- moves and their events

  /** One rename: from an entry of one watched directory to an entry of another; a directory has a
      watch of its own. */
  datatype Move = Move(isDir: bool, cookie: nat, wd: int, oldDir: int, oldName: string, newDir: int, newName: string)

  function EventOf(m: Move, kind: Kind): Event {
    match kind
    case From => Event(m.oldDir, From, m.isDir, m.cookie, m.oldName)
    case To => Event(m.newDir, To, m.isDir, m.cookie, m.newName)
    case Self => Event(m.wd, Self, true, 0, "")
  }

  /** The path of a watch, which the source's map makes empty when there is none. */
  function PathOf(watch: map<int, Path>, wd: int): Path {
    if wd in watch then watch[wd] else ""
  }

  function Old(s0: State, m: Move): Path {
    Entry(PathOf(s0.watch, m.oldDir), m.oldName)
  }

  function New(s0: State, m: Move): Path {
    Entry(PathOf(s0.watch, m.newDir), m.newName)
  }

  function CallOf(s0: State, m: Move): Call {
    if m.isDir then DirMoved(Old(s0, m), New(s0, m)) else FileMoved(Old(s0, m), New(s0, m))
  }

  /** The moves under consideration, beside whatever the stores hold already. */
  ghost predicate Apart(s0: State, ms: seq<Move>) {
    && (forall i :: 0 <= i < |ms| ==>
          && ms[i].cookie != 0 && ms[i].oldDir in s0.watch && ms[i].newDir in s0.watch
          && ms[i].cookie !in s0.files)
    && (forall i, k :: 0 <= i < |ms| && 0 <= k < |s0.dirs| ==> s0.dirs[k].cookie != ms[i].cookie)
    && (forall i, j :: 0 <= i < j < |ms| ==> ms[i].cookie != ms[j].cookie)
    && DirsApart(s0, ms)
  }

  /** Directories that move have watches and old paths of their own, and none is the parent of a move. */
  ghost predicate DirsApart(s0: State, ms: seq<Move>) {
    && (forall i :: 0 <= i < |ms| && ms[i].isDir ==>
          && ms[i].wd > 0 && ms[i].wd in s0.watch && s0.watch[ms[i].wd] == Old(s0, ms[i])
          && (forall k :: 0 <= k < |s0.dirs| ==> s0.dirs[k].oldPath != Old(s0, ms[i])))
    && (forall i, j :: 0 <= i < |ms| && 0 <= j < |ms| && ms[i].isDir ==>
          ms[j].oldDir != ms[i].wd && ms[j].newDir != ms[i].wd)
    && (forall i, j :: 0 <= i < j < |ms| && ms[i].isDir && ms[j].isDir ==>
          ms[i].wd != ms[j].wd && Old(s0, ms[i]) != Old(s0, ms[j]))
  }

  function AllKinds(m: Move): set<Kind> {
    if m.isDir then {From, To, Self} else {From, To}
  }

  // ---------------------------------------------------------------- what the stores hold at any time

  /** Which events of every move have been seen; the directories with a record, in the order of the
      records; and the moves reported, in order. */
  datatype Progress = Progress(seen: seq<set<Kind>>, pending: seq<nat>, done: seq<nat>)

  predicate IsDone(m: Move, seen: set<Kind>) {
    seen == AllKinds(m)
  }

  /** A directory has a record while one of its own events is waiting for others. */
  predicate HasRecord(m: Move, seen: set<Kind>) {
    m.isDir && !IsDone(m, seen) && (From in seen || Self in seen)
  }

  function Record(s0: State, m: Move, seen: set<Kind>): MoveDir {
    MoveDir(if Self in seen then m.wd else -1, if From in seen then m.cookie else 0, Old(s0, m),
            if From in seen && To in seen then New(s0, m) else "")
  }

  /** A cookie is stored once the new path is known, or for a file either path. */
  predicate HasPath(m: Move, seen: set<Kind>) {
    !IsDone(m, seen) && (To in seen || (!m.isDir && From in seen))
  }

  function StoredPath(s0: State, m: Move, seen: set<Kind>): Path {
    if To in seen then New(s0, m) else Old(s0, m)
  }

  ghost predicate PendingListed(p: Progress, ms: seq<Move>) {
    && |p.seen| == |ms|
    && (forall k :: 0 <= k < |p.pending| ==> p.pending[k] < |ms| && HasRecord(ms[p.pending[k]], p.seen[p.pending[k]]))
    && (forall j, k :: 0 <= j < k < |p.pending| ==> p.pending[j] != p.pending[k])
    && (forall i :: 0 <= i < |ms| && HasRecord(ms[i], p.seen[i]) ==> i in p.pending)
  }

  ghost predicate DoneListed(p: Progress, ms: seq<Move>) {
    && |p.seen| == |ms|
    && (forall k :: 0 <= k < |p.done| ==> p.done[k] < |ms| && IsDone(ms[p.done[k]], p.seen[p.done[k]]))
    && (forall j, k :: 0 <= j < k < |p.done| ==> p.done[j] != p.done[k])
    && (forall i :: 0 <= i < |ms| && IsDone(ms[i], p.seen[i]) ==> i in p.done)
  }

  ghost predicate Listed(p: Progress, ms: seq<Move>) {
    && PendingListed(p, ms) && DoneListed(p, ms)
    && (forall i :: 0 <= i < |ms| ==> p.seen[i] <= AllKinds(ms[i]))
  }

  ghost predicate FilesMatch(s0: State, ms: seq<Move>, p: Progress, files: map<nat, Path>)
    requires |p.seen| == |ms|
  {
    && (forall i :: 0 <= i < |ms| ==>
          && (ms[i].cookie in files <==> HasPath(ms[i], p.seen[i]))
          && (ms[i].cookie in files ==> files[ms[i].cookie] == StoredPath(s0, ms[i], p.seen[i])))
    && (forall c :: (forall i :: 0 <= i < |ms| ==> ms[i].cookie != c) ==>
          (c in files <==> c in s0.files) && (c in files ==> files[c] == s0.files[c]))
  }

  ghost predicate WatchMatches(s0: State, ms: seq<Move>, p: Progress, watch: map<int, Path>)
    requires |p.seen| == |ms|
  {
    && watch.Keys == s0.watch.Keys
    && (forall i :: 0 <= i < |ms| && ms[i].isDir ==>
          && ms[i].wd in watch
          && watch[ms[i].wd] == if IsDone(ms[i], p.seen[i]) then New(s0, ms[i]) else Old(s0, ms[i]))
    && (forall w :: w in watch && (forall i :: 0 <= i < |ms| && ms[i].isDir ==> ms[i].wd != w) ==>
          watch[w] == s0.watch[w])
  }

  ghost predicate InRange(q: seq<nat>, n: nat) {
    forall k :: 0 <= k < |q| ==> q[k] < n
  }

  function Records(s0: State, ms: seq<Move>, p: Progress): (r: seq<MoveDir>)
    requires |p.seen| == |ms| && InRange(p.pending, |ms|)
    ensures |r| == |p.pending|
    ensures forall k :: 0 <= k < |r| ==> r[k] == Record(s0, ms[p.pending[k]], p.seen[p.pending[k]])
  {
    seq(|p.pending|, k requires 0 <= k < |p.pending| => Record(s0, ms[p.pending[k]], p.seen[p.pending[k]]))
  }

  /** The calls for the moves of a list, in its order. */
  function CallsOf(s0: State, ms: seq<Move>, order: seq<nat>): (r: seq<Call>)
    requires InRange(order, |ms|)
  {
    if order == [] then [] else CallsOf(s0, ms, order[..|order| - 1]) + [CallOf(s0, ms[order[|order| - 1]])]
  }

  /** The stores hold exactly what is known of the moves under way, whatever the order it came in. */
  ghost predicate Canonical(s0: State, ms: seq<Move>, p: Progress, s: State) {
    && Apart(s0, ms) && Listed(p, ms)
    && FilesMatch(s0, ms, p, s.files) && WatchMatches(s0, ms, p, s.watch)
    && s.dirs == s0.dirs + Records(s0, ms, p) && s.calls == s0.calls + CallsOf(s0, ms, p.done)
  }

  // ---------------------------------------------------------------- what one event does to them

  function Note(p: Progress, ms: seq<Move>, i: nat, kind: Kind): (r: Progress)
    requires i < |ms| == |p.seen|
  {
    var was, seen := p.seen[i], p.seen[i] + {kind};
    Progress(p.seen[i := seen],
             if HasRecord(ms[i], seen) == HasRecord(ms[i], was) then p.pending
             else if HasRecord(ms[i], seen) then p.pending + [i]
             else Dropped(p.pending, i),
             if IsDone(ms[i], seen) then p.done + [i] else p.done)
  }

  /** The place of a value in a sequence, or its length. */
  function IndexOf(q: seq<nat>, i: nat): (k: nat)
    ensures k <= |q| && (k < |q| ==> q[k] == i) && (k == |q| ==> i !in q)
  {
    if q == [] || q[0] == i then 0 else 1 + IndexOf(q[1..], i)
  }

  function Dropped(q: seq<nat>, i: nat): seq<nat> {
    var k := IndexOf(q, i);
    if k < |q| then q[..k] + q[k + 1..] else q
  }

  lemma DroppedKeeps(q: seq<nat>, i: nat)
    requires forall j, k :: 0 <= j < k < |q| ==> q[j] != q[k]
    ensures var r := Dropped(q, i);
            && (forall j, k :: 0 <= j < k < |r| ==> r[j] != r[k])
            && (forall x :: x in r <==> x in q && x != i)
  {
    var n, r := IndexOf(q, i), Dropped(q, i);
    forall x | x in q && x != i
      ensures x in r
    {
      var k :| 0 <= k < |q| && q[k] == x;
      assert n < |q| ==> r[if k < n then k else k - 1] == x;
    }
    forall k | 0 <= k < |r|
      ensures r[k] in q && r[k] != i
    {
      assert r[k] == if n == |q| || k < n then q[k] else q[k + 1];
    }
  }

  /** The event may come: it is one of the move's, and has not been seen. */
  ghost predicate Awaited(p: Progress, ms: seq<Move>, i: nat, kind: Kind) {
    i < |ms| == |p.seen| && kind in AllKinds(ms[i]) && kind !in p.seen[i]
  }

  lemma NoteListed(p: Progress, ms: seq<Move>, i: nat, kind: Kind)
    requires Listed(p, ms) && Awaited(p, ms, i, kind)
    ensures Listed(Note(p, ms, i, kind), ms)
  {
    NotePending(p, ms, i, kind);
    NoteDone(p, ms, i, kind);
  }

  lemma NotePending(p: Progress, ms: seq<Move>, i: nat, kind: Kind)
    requires PendingListed(p, ms) && Awaited(p, ms, i, kind)
    ensures PendingListed(Note(p, ms, i, kind), ms)
  {
    var p', m := Note(p, ms, i, kind), ms[i];
    DroppedKeeps(p.pending, i);
    assert HasRecord(m, p.seen[i]) <==> i in p.pending;
    forall x | x in p'.pending
      ensures x < |ms| && HasRecord(ms[x], p'.seen[x])
    {
      assert x == i || x in p.pending;
    }
    forall x: nat | x < |ms| && HasRecord(ms[x], p'.seen[x])
      ensures x in p'.pending
    {
      if x == i {
        assert (p.pending + [i])[|p.pending|] == i;
      } else {
        assert x in p.pending;
      }
    }
  }

  lemma NoteDone(p: Progress, ms: seq<Move>, i: nat, kind: Kind)
    requires DoneListed(p, ms) && Awaited(p, ms, i, kind)
    ensures DoneListed(Note(p, ms, i, kind), ms)
  {
    var p' := Note(p, ms, i, kind);
    assert !IsDone(ms[i], p.seen[i]) && i !in p.done;
    forall x: nat | x < |ms| && IsDone(ms[x], p'.seen[x])
      ensures x in p'.done
    {
      if x == i {
        assert (p.done + [i])[|p.done|] == i;
      } else {
        assert x in p.done;
      }
    }
  }

  /** What the stores say about one move that is not done; `k` is the place of its record. */
  ghost predicate Local(s0: State, m: Move, seen: set<Kind>, s: State, k: nat) {
    && m.cookie != 0 && m.oldDir in s0.watch && m.newDir in s0.watch
    && m.oldDir in s.watch && s.watch[m.oldDir] == s0.watch[m.oldDir]
    && m.newDir in s.watch && s.watch[m.newDir] == s0.watch[m.newDir]
    && seen < AllKinds(m)
    && (m.cookie in s.files <==> HasPath(m, seen))
    && (m.cookie in s.files ==> s.files[m.cookie] == StoredPath(s0, m, seen))
    && k <= |s.dirs| && (k < |s.dirs| <==> HasRecord(m, seen))
    && (k < |s.dirs| ==> s.dirs[k] == Record(s0, m, seen))
    && (m.isDir ==>
          && m.wd > 0 && m.wd in s.watch && s.watch[m.wd] == Old(s0, m)
          && FindOld(s.dirs, Old(s0, m)) == k
          && (forall j :: 0 <= j < |s.dirs| && j != k ==> s.dirs[j].cookie != m.cookie))
  }

  /** The record of a move appears, changes or goes. */
  ghost function DirsAfter(m: Move, was: set<Kind>, seen: set<Kind>, dirs: seq<MoveDir>, k: nat, d: MoveDir)
    : seq<MoveDir>
  {
    if HasRecord(m, was) then
      if k >= |dirs| then dirs
      else if HasRecord(m, seen) then dirs[k := d]
      else Removed(dirs, k)
    else if HasRecord(m, seen) then dirs + [d]
    else dirs
  }

  /** What an event should do to the stores: the same for every kind and every order. */
  ghost function Effect(s0: State, m: Move, was: set<Kind>, s: State, k: nat, kind: Kind): State
    requires Local(s0, m, was, s, k)
  {
    var seen := was + {kind};
    State(if IsDone(m, seen) && m.isDir then s.watch[m.wd := New(s0, m)] else s.watch,
          if HasPath(m, seen) then s.files[m.cookie := StoredPath(s0, m, seen)] else s.files - {m.cookie},
          DirsAfter(m, was, seen, s.dirs, k, Record(s0, m, seen)),
          if IsDone(m, seen) then s.calls + [CallOf(s0, m)] else s.calls)
  }

  lemma FileEffect(s0: State, m: Move, was: set<Kind>, s: State, k: nat, kind: Kind)
    requires Local(s0, m, was, s, k) && kind in AllKinds(m) - was && !m.isDir
    ensures Handle(s, EventOf(m, kind)) == Effect(s0, m, was, s, k, kind)
  {
    assert was == {} || was == {if kind == From then To else From};
  }

  lemma FromEffect(s0: State, m: Move, was: set<Kind>, s: State, k: nat)
    requires Local(s0, m, was, s, k) && From !in was && m.isDir
    ensures Handle(s, EventOf(m, From)) == Effect(s0, m, was, s, k, From)
  {
    assert was == {} || was == {To} || was == {Self} || was == {To, Self};
  }

  lemma SelfEffect(s0: State, m: Move, was: set<Kind>, s: State, k: nat)
    requires Local(s0, m, was, s, k) && Self !in was && m.isDir
    ensures Handle(s, EventOf(m, Self)) == Effect(s0, m, was, s, k, Self)
  {
    assert was == {} || was == {From} || was == {To} || was == {From, To};
  }

  lemma ToEffect(s0: State, m: Move, was: set<Kind>, s: State, k: nat)
    requires Local(s0, m, was, s, k) && To !in was && m.isDir
    ensures Handle(s, EventOf(m, To)) == Effect(s0, m, was, s, k, To)
  {
    var n := if {From, Self} <= was then k else |s.dirs|;
    FindWatchedIs(s.dirs, m.cookie, n);
    NoteNewIs(s.dirs, m.cookie, New(s0, m), n, k);
    assert was == {} || was == {From} || was == {Self} || was == {From, Self};
  }

  lemma NoteNewIs(ds: seq<MoveDir>, cookie: nat, path: Path, n: nat, k: nat)
    requires k <= |ds| && n <= |ds| && forall j :: 0 <= j < |ds| && j != k ==> ds[j].cookie != cookie
    ensures NoteNew(ds, cookie, path, n) ==
            if k < n && ds[k].cookie == cookie then ds[k := ds[k].(newPath := path)] else ds
  {
  }

  // ---------------------------------------------------------------- what every event keeps

  /** The place of a move's record. */
  ghost function Place(s0: State, p: Progress, i: nat): nat {
    |s0.dirs| + IndexOf(p.pending, i)
  }

  /** Parents do not move, so names resolve as they did at first; a directory's own path is the old one
      until its move is done. */
  lemma ToLocal(s0: State, ms: seq<Move>, p: Progress, s: State, i: nat)
    requires Canonical(s0, ms, p, s) && i < |ms| && !IsDone(ms[i], p.seen[i])
    ensures Local(s0, ms[i], p.seen[i], s, Place(s0, p, i))
  {
    var m, k := ms[i], Place(s0, p, i);
    if m.isDir {
      forall j | 0 <= j < |s.dirs| && j != k
        ensures s.dirs[j].cookie != m.cookie && s.dirs[j].oldPath != Old(s0, m)
      {
        OtherRecord(s0, ms, p, i, j);
      }
      FindOldIs(s.dirs, Old(s0, m), k);
    }
  }

  lemma OtherRecord(s0: State, ms: seq<Move>, p: Progress, i: nat, j: nat)
    requires Apart(s0, ms) && Listed(p, ms) && i < |ms| && ms[i].isDir
    requires j < |s0.dirs| + |p.pending| && j != Place(s0, p, i)
    ensures var d := (s0.dirs + Records(s0, ms, p))[j]; d.cookie != ms[i].cookie && d.oldPath != Old(s0, ms[i])
  {
    if j >= |s0.dirs| {
      OtherPending(s0, ms, p, i, j - |s0.dirs|);
    }
  }

  lemma OtherPending(s0: State, ms: seq<Move>, p: Progress, i: nat, k: nat)
    requires Apart(s0, ms) && Listed(p, ms) && i < |ms| && ms[i].isDir
    requires k < |p.pending| && k != IndexOf(p.pending, i)
    ensures var x := p.pending[k];
            Record(s0, ms[x], p.seen[x]).cookie != ms[i].cookie && Old(s0, ms[x]) != Old(s0, ms[i])
  {
    var x := p.pending[k];
    assert x != i by {
      assert IndexOf(p.pending, i) < |p.pending| ==> p.pending[IndexOf(p.pending, i)] == i;
    }
    assert HasRecord(ms[x], p.seen[x]);
    TwoApart(s0, ms, i, x);
  }

  lemma TwoApart(s0: State, ms: seq<Move>, i: nat, j: nat)
    requires Apart(s0, ms) && i < |ms| && j < |ms| && i != j
    ensures ms[i].cookie != ms[j].cookie
    ensures ms[i].isDir && ms[j].isDir ==> ms[i].wd != ms[j].wd && Old(s0, ms[i]) != Old(s0, ms[j])
  {
  }

  lemma FilesKept(s0: State, ms: seq<Move>, p: Progress, s: State, i: nat, kind: Kind, files: map<nat, Path>)
    requires Apart(s0, ms) && Awaited(p, ms, i, kind) && FilesMatch(s0, ms, p, s.files)
    requires var seen := p.seen[i] + {kind};
             files == if HasPath(ms[i], seen) then s.files[ms[i].cookie := StoredPath(s0, ms[i], seen)]
                      else s.files - {ms[i].cookie}
    ensures FilesMatch(s0, ms, Note(p, ms, i, kind), files)
  {
    var p' := Note(p, ms, i, kind);
    forall j | 0 <= j < |ms|
      ensures ms[j].cookie in files <==> HasPath(ms[j], p'.seen[j])
      ensures ms[j].cookie in files ==> files[ms[j].cookie] == StoredPath(s0, ms[j], p'.seen[j])
    {
      if j != i {
        TwoApart(s0, ms, i, j);
      }
    }
  }

  lemma WatchKept(s0: State, ms: seq<Move>, p: Progress, s: State, i: nat, kind: Kind, watch: map<int, Path>)
    requires Apart(s0, ms) && Awaited(p, ms, i, kind) && WatchMatches(s0, ms, p, s.watch)
    requires watch == if IsDone(ms[i], p.seen[i] + {kind}) && ms[i].isDir then s.watch[ms[i].wd := New(s0, ms[i])]
                      else s.watch
    ensures WatchMatches(s0, ms, Note(p, ms, i, kind), watch)
  {
    var p' := Note(p, ms, i, kind);
    assert !IsDone(ms[i], p.seen[i]);
    forall j | 0 <= j < |ms| && ms[j].isDir
      ensures ms[j].wd in watch
      ensures watch[ms[j].wd] == if IsDone(ms[j], p'.seen[j]) then New(s0, ms[j]) else Old(s0, ms[j])
    {
      assert ms[j].wd in s.watch;
      if j != i {
        TwoApart(s0, ms, i, j);
      }
    }
  }

  lemma CallsAdded(s0: State, ms: seq<Move>, done: seq<nat>, i: nat)
    requires InRange(done, |ms|) && i < |ms|
    ensures InRange(done + [i], |ms|)
    ensures CallsOf(s0, ms, done + [i]) == CallsOf(s0, ms, done) + [CallOf(s0, ms[i])]
  {
    assert (done + [i])[..|done|] == done;
  }

  lemma CallsKept(s0: State, ms: seq<Move>, p: Progress, s: State, i: nat, kind: Kind, calls: seq<Call>)
    requires Awaited(p, ms, i, kind) && InRange(p.done, |ms|) && s.calls == s0.calls + CallsOf(s0, ms, p.done)
    requires calls == if IsDone(ms[i], p.seen[i] + {kind}) then s.calls + [CallOf(s0, ms[i])] else s.calls
    ensures var done := Note(p, ms, i, kind).done;
            InRange(done, |ms|) && calls == s0.calls + CallsOf(s0, ms, done)
  {
    CallsAdded(s0, ms, p.done, i);
  }

  /** Two moments between which only one move has changed. */
  ghost predicate OnlyChanged(ms: seq<Move>, p: Progress, p': Progress, i: nat) {
    && |p.seen| == |ms| == |p'.seen| && InRange(p.pending, |ms|) && InRange(p'.pending, |ms|)
    && i < |ms| && p'.seen == p.seen[i := p'.seen[i]]
    && forall j, k :: 0 <= j < k < |p.pending| ==> p.pending[j] != p.pending[k]
  }

  /** Records of other moves stay as they are. */
  lemma OthersSame(s0: State, ms: seq<Move>, p: Progress, p': Progress, i: nat, k: nat, k': nat)
    requires OnlyChanged(ms, p, p', i) && k < |p.pending| && k' < |p'.pending| && p.pending[k] == p'.pending[k'] != i
    ensures Records(s0, ms, p)[k] == Records(s0, ms, p')[k']
  {
  }

  lemma RecordPushed(s0: State, ms: seq<Move>, p: Progress, p': Progress, i: nat)
    requires OnlyChanged(ms, p, p', i) && i !in p.pending && p'.pending == p.pending + [i]
    ensures Records(s0, ms, p') == Records(s0, ms, p) + [Record(s0, ms[i], p'.seen[i])]
  {
    forall k | 0 <= k < |p.pending|
      ensures Records(s0, ms, p)[k] == Records(s0, ms, p')[k]
    {
      assert p.pending[k] in p.pending;
      OthersSame(s0, ms, p, p', i, k, k);
    }
  }

  lemma RecordUpdated(s0: State, ms: seq<Move>, p: Progress, p': Progress, i: nat, x: nat)
    requires OnlyChanged(ms, p, p', i) && x < |p.pending| && p.pending[x] == i && p'.pending == p.pending
    ensures Records(s0, ms, p') == Records(s0, ms, p)[x := Record(s0, ms[i], p'.seen[i])]
  {
    forall k | 0 <= k < |p.pending| && k != x
      ensures Records(s0, ms, p)[k] == Records(s0, ms, p')[k]
    {
      OthersSame(s0, ms, p, p', i, k, k);
    }
  }

  lemma RecordRemoved(s0: State, ms: seq<Move>, p: Progress, p': Progress, i: nat, x: nat)
    requires OnlyChanged(ms, p, p', i) && x < |p.pending| && p.pending[x] == i
    requires p'.pending == p.pending[..x] + p.pending[x + 1..]
    ensures Records(s0, ms, p') == Removed(Records(s0, ms, p), x)
  {
    forall k | 0 <= k < |p'.pending|
      ensures Records(s0, ms, p')[k] == Records(s0, ms, p)[if k < x then k else k + 1]
    {
      OthersSame(s0, ms, p, p', i, if k < x then k else k + 1, k);
    }
  }

  lemma RecordsSame(s0: State, ms: seq<Move>, p: Progress, p': Progress, i: nat)
    requires OnlyChanged(ms, p, p', i) && i !in p.pending && p'.pending == p.pending
    ensures Records(s0, ms, p') == Records(s0, ms, p)
  {
    forall k | 0 <= k < |p.pending|
      ensures Records(s0, ms, p)[k] == Records(s0, ms, p')[k]
    {
      assert p.pending[k] in p.pending;
      OthersSame(s0, ms, p, p', i, k, k);
    }
  }

  lemma RecordsKept(s0: State, ms: seq<Move>, p: Progress, i: nat, kind: Kind)
    requires i < |ms| == |p.seen| && OnlyChanged(ms, p, Note(p, ms, i, kind), i)
    requires HasRecord(ms[i], p.seen[i]) <==> i in p.pending
    ensures var seen := p.seen[i] + {kind};
            Records(s0, ms, Note(p, ms, i, kind)) ==
            DirsAfter(ms[i], p.seen[i], seen, Records(s0, ms, p), IndexOf(p.pending, i), Record(s0, ms[i], seen))
  {
    var p', m, x := Note(p, ms, i, kind), ms[i], IndexOf(p.pending, i);
    var had, has := HasRecord(m, p.seen[i]), HasRecord(m, p'.seen[i]);
    if had && has {
      RecordUpdated(s0, ms, p, p', i, x);
    } else if had {
      RecordRemoved(s0, ms, p, p', i, x);
    } else if has {
      RecordPushed(s0, ms, p, p', i);
    } else {
      RecordsSame(s0, ms, p, p', i);
    }
  }

  lemma BaseStays(m: Move, was: set<Kind>, seen: set<Kind>, base: seq<MoveDir>, r: seq<MoveDir>, r': seq<MoveDir>,
                  x: nat, d: MoveDir)
    requires x <= |r| && r' == DirsAfter(m, was, seen, r, x, d)
    ensures DirsAfter(m, was, seen, base + r, |base| + x, d) == base + r'
  {
    if x < |r| {
      assert (base + r)[|base| + x := d] == base + r[x := d];
      assert Removed(base + r, |base| + x) == base + Removed(r, x);
    }
  }

  lemma DirsKept(s0: State, ms: seq<Move>, p: Progress, i: nat, kind: Kind)
    requires i < |ms| == |p.seen| && OnlyChanged(ms, p, Note(p, ms, i, kind), i)
    requires HasRecord(ms[i], p.seen[i]) <==> i in p.pending
    ensures var seen := p.seen[i] + {kind};
            DirsAfter(ms[i], p.seen[i], seen, s0.dirs + Records(s0, ms, p), Place(s0, p, i), Record(s0, ms[i], seen)) ==
            s0.dirs + Records(s0, ms, Note(p, ms, i, kind))
  {
    var m, was, seen := ms[i], p.seen[i], p.seen[i] + {kind};
    var x, d := IndexOf(p.pending, i), Record(s0, m, seen);
    var r, r' := Records(s0, ms, p), Records(s0, ms, Note(p, ms, i, kind));
    assert r' == DirsAfter(m, was, seen, r, x, d) by {
      RecordsKept(s0, ms, p, i, kind);
    }
    BaseStays(m, was, seen, s0.dirs, r, r', x, d);
    assert Place(s0, p, i) == |s0.dirs| + x;
  }

  lemma OneChanges(p: Progress, ms: seq<Move>, i: nat, kind: Kind)
    requires PendingListed(p, ms) && Awaited(p, ms, i, kind) && PendingListed(Note(p, ms, i, kind), ms)
    ensures OnlyChanged(ms, p, Note(p, ms, i, kind), i)
    ensures HasRecord(ms[i], p.seen[i]) <==> i in p.pending
  {
  }

  lemma HandleIsEffect(s0: State, ms: seq<Move>, p: Progress, s: State, i: nat, kind: Kind)
    requires Canonical(s0, ms, p, s) && Awaited(p, ms, i, kind)
    ensures Local(s0, ms[i], p.seen[i], s, Place(s0, p, i))
    ensures Handle(s, EventOf(ms[i], kind)) == Effect(s0, ms[i], p.seen[i], s, Place(s0, p, i), kind)
  {
    var m, was, k := ms[i], p.seen[i], Place(s0, p, i);
    ToLocal(s0, ms, p, s, i);
    if !m.isDir {
      FileEffect(s0, m, was, s, k, kind);
    } else if kind == From {
      FromEffect(s0, m, was, s, k);
    } else if kind == To {
      ToEffect(s0, m, was, s, k);
    } else {
      SelfEffect(s0, m, was, s, k);
    }
  }

  /** Every event, of whatever move and in whatever order, leaves the stores canonical. */
  lemma EventKeeps(s0: State, ms: seq<Move>, p: Progress, s: State, i: nat, kind: Kind)
    requires Canonical(s0, ms, p, s) && Awaited(p, ms, i, kind)
    ensures Canonical(s0, ms, Note(p, ms, i, kind), Handle(s, EventOf(ms[i], kind)))
  {
    NoteListed(p, ms, i, kind);
    HandleIsEffect(s0, ms, p, s, i, kind);
    var s' := Handle(s, EventOf(ms[i], kind));
    FilesKept(s0, ms, p, s, i, kind, s'.files);
    WatchKept(s0, ms, p, s, i, kind, s'.watch);
    CallsKept(s0, ms, p, s, i, kind, s'.calls);
    OneChanges(p, ms, i, kind);
    DirsKept(s0, ms, p, i, kind);
  }

  // ---------------------------------------------------------------- runs

  /** An event of a run: which move it is of, and which of its events. */
  type Step = (nat, Kind)

  /** Events of the moves, each at most once, in any order. */
  ghost predicate IsInterleaving(ms: seq<Move>, es: seq<Step>) {
    && (forall k :: 0 <= k < |es| ==> es[k].0 < |ms| && es[k].1 in AllKinds(ms[es[k].0]))
    && (forall j, k :: 0 <= j < k < |es| ==> es[j] != es[k])
  }

  /** Every event of every move has come. */
  ghost predicate IsWhole(ms: seq<Move>, es: seq<Step>) {
    forall i: nat, kind :: i < |ms| && kind in AllKinds(ms[i]) ==> (i, kind) in es
  }

  function Run(s0: State, ms: seq<Move>, es: seq<Step>): State
    requires forall k :: 0 <= k < |es| ==> es[k].0 < |ms|
  {
    if es == [] then s0
    else
      var last := es[|es| - 1];
      Handle(Run(s0, ms, es[..|es| - 1]), EventOf(ms[last.0], last.1))
  }

  function ProgressOf(ms: seq<Move>, es: seq<Step>): (p: Progress)
    requires forall k :: 0 <= k < |es| ==> es[k].0 < |ms|
    ensures |p.seen| == |ms|
  {
    if es == [] then Progress(seq(|ms|, i => {}), [], [])
    else
      var last := es[|es| - 1];
      Note(ProgressOf(ms, es[..|es| - 1]), ms, last.0, last.1)
  }

  lemma {:induction false} SeenIs(ms: seq<Move>, es: seq<Step>, i: nat, kind: Kind)
    requires IsInterleaving(ms, es) && i < |ms|
    ensures kind in ProgressOf(ms, es).seen[i] <==> (i, kind) in es
  {
    if es != [] {
      var init, last := es[..|es| - 1], es[|es| - 1];
      SeenIs(ms, init, i, kind);
      assert es == init + [last];
    }
  }

  /** In every prefix of every interleaving, the stores hold exactly what is known of the moves. */
  lemma {:induction false} RunsAreCanonical(s0: State, ms: seq<Move>, es: seq<Step>)
    requires Apart(s0, ms) && IsInterleaving(ms, es)
    ensures Canonical(s0, ms, ProgressOf(ms, es), Run(s0, ms, es))
  {
    if es != [] {
      var init, last := es[..|es| - 1], es[|es| - 1];
      RunsAreCanonical(s0, ms, init);
      SeenIs(ms, init, last.0, last.1);
      EventKeeps(s0, ms, ProgressOf(ms, init), Run(s0, ms, init), last.0, last.1);
    }
  }

  lemma AllDone(ms: seq<Move>, es: seq<Step>, i: nat)
    requires IsInterleaving(ms, es) && IsWhole(ms, es) && i < |ms|
    requires Listed(ProgressOf(ms, es), ms)
    ensures IsDone(ms[i], ProgressOf(ms, es).seen[i])
  {
    forall kind | kind in AllKinds(ms[i])
      ensures kind in ProgressOf(ms, es).seen[i]
    {
      SeenIs(ms, es, i, kind);
    }
  }

  /** Every number below `n` exactly once. */
  ghost predicate Permutes(order: seq<nat>, n: nat) {
    && (forall j, k :: 0 <= j < k < |order| ==> order[j] != order[k])
    && (forall i: nat :: i in order <==> i < n)
  }

  /** Exactly the watches of the moved directories have changed, to the new paths. */
  ghost predicate WatchMoved(s0: State, ms: seq<Move>, watch: map<int, Path>) {
    && watch.Keys == s0.watch.Keys
    && (forall i :: 0 <= i < |ms| && ms[i].isDir ==> ms[i].wd in watch && watch[ms[i].wd] == New(s0, ms[i]))
    && (forall w :: w in watch && (forall i :: 0 <= i < |ms| && ms[i].isDir ==> ms[i].wd != w) ==>
       watch[w] == s0.watch[w])
  }

  /** Once all events have come, in whatever order: every move has been reported exactly once, every
      watch of a moved directory has its new path, and both pending stores are as they began. */
  lemma EveryMoveReported(s0: State, ms: seq<Move>, es: seq<Step>) returns (order: seq<nat>)
    requires Apart(s0, ms) && IsInterleaving(ms, es) && IsWhole(ms, es)
    ensures Permutes(order, |ms|)
    ensures var s := Run(s0, ms, es);
            && s.files == s0.files && s.dirs == s0.dirs && WatchMoved(s0, ms, s.watch)
            && InRange(order, |ms|) && s.calls == s0.calls + CallsOf(s0, ms, order)
  {
    var p, s := ProgressOf(ms, es), Run(s0, ms, es);
    RunsAreCanonical(s0, ms, es);
    forall i: nat | i < |ms|
      ensures IsDone(ms[i], p.seen[i])
    {
      AllDone(ms, es, i);
    }
    order := p.done;
    NonePending(ms, p);
    FilesAsBegan(s0, ms, p, s.files);
    assert s.dirs == s0.dirs;
    WatchAsMoved(s0, ms, p, s.watch);
  }

  lemma NonePending(ms: seq<Move>, p: Progress)
    requires Listed(p, ms) && forall i :: 0 <= i < |ms| ==> IsDone(ms[i], p.seen[i])
    ensures p.pending == [] && Permutes(p.done, |ms|)
  {
    if p.pending != [] {
      PendingIsNotDone(ms, p);
    }
  }

  lemma PendingIsNotDone(ms: seq<Move>, p: Progress)
    requires PendingListed(p, ms) && p.pending != []
    ensures p.pending[0] < |ms| && !IsDone(ms[p.pending[0]], p.seen[p.pending[0]])
  {
  }

  lemma WatchAsMoved(s0: State, ms: seq<Move>, p: Progress, watch: map<int, Path>)
    requires |p.seen| == |ms| && WatchMatches(s0, ms, p, watch)
    requires forall i :: 0 <= i < |ms| ==> IsDone(ms[i], p.seen[i])
    ensures WatchMoved(s0, ms, watch)
  {
  }

  lemma FilesAsBegan(s0: State, ms: seq<Move>, p: Progress, files: map<nat, Path>)
    requires Apart(s0, ms) && |p.seen| == |ms| && FilesMatch(s0, ms, p, files)
    requires forall i :: 0 <= i < |ms| ==> IsDone(ms[i], p.seen[i])
    ensures files == s0.files
  {
    forall c: nat
      ensures c in files <==> c in s0.files
      ensures c in files ==> files[c] == s0.files[c]
    {
      if i :| 0 <= i < |ms| && ms[i].cookie == c {
        assert !HasPath(ms[i], p.seen[i]);
      }
    }
  }

  /** Two interleavings of the same moves end alike. */
  lemma Confluent(s0: State, ms: seq<Move>, es: seq<Step>, es': seq<Step>)
    requires Apart(s0, ms) && IsInterleaving(ms, es) && IsWhole(ms, es)
    requires IsInterleaving(ms, es') && IsWhole(ms, es')
    ensures var s, s' := Run(s0, ms, es), Run(s0, ms, es');
            && s.watch == s'.watch && s.files == s'.files && s.dirs == s'.dirs
            && multiset(s.calls) == multiset(s'.calls)
  {
    var order := EveryMoveReported(s0, ms, es);
    var order' := EveryMoveReported(s0, ms, es');
    SameWatch(s0, ms, Run(s0, ms, es).watch, Run(s0, ms, es').watch);
    SameCalls(s0, ms, order, order');
  }

  lemma SameWatch(s0: State, ms: seq<Move>, watch: map<int, Path>, watch': map<int, Path>)
    requires WatchMoved(s0, ms, watch) && WatchMoved(s0, ms, watch')
    ensures watch == watch'
  {
    forall w | w in watch
      ensures watch[w] == watch'[w]
    {
      if i :| 0 <= i < |ms| && ms[i].isDir && ms[i].wd == w {
        assert watch[ms[i].wd] == watch'[ms[i].wd];
      }
    }
  }

  lemma {:induction false} SameCalls(s0: State, ms: seq<Move>, q: seq<nat>, r: seq<nat>)
    requires InRange(q, |ms|) && InRange(r, |ms|)
    requires forall j, k :: 0 <= j < k < |q| ==> q[j] != q[k]
    requires forall j, k :: 0 <= j < k < |r| ==> r[j] != r[k]
    requires forall x :: x in q <==> x in r
    ensures multiset(CallsOf(s0, ms, q)) == multiset(CallsOf(s0, ms, r))
  {
    if q == [] {
      if r != [] {
        FirstIsMember(r);
      }
    } else {
      var init, last := q[..|q| - 1], q[|q| - 1];
      assert q == init + [last];
      DroppedKeeps(r, last);
      SameCalls(s0, ms, init, Dropped(r, last));
      CallsOfDropped(s0, ms, r, last);
    }
  }

  lemma FirstIsMember(q: seq<nat>)
    requires q != []
    ensures q[0] in q
  {
  }

  lemma {:induction false} CallsOfDropped(s0: State, ms: seq<Move>, r: seq<nat>, x: nat)
    requires InRange(r, |ms|) && x in r
    ensures InRange(Dropped(r, x), |ms|)
    ensures multiset(CallsOf(s0, ms, r)) == multiset(CallsOf(s0, ms, Dropped(r, x))) + multiset{CallOf(s0, ms[x])}
  {
    var k := IndexOf(r, x);
    CallsOfWithout(s0, ms, r, k);
  }

  lemma {:induction false} CallsOfWithout(s0: State, ms: seq<Move>, r: seq<nat>, k: nat)
    requires InRange(r, |ms|) && k < |r|
    ensures InRange(r[..k] + r[k + 1..], |ms|)
    ensures multiset(CallsOf(s0, ms, r)) ==
            multiset(CallsOf(s0, ms, r[..k] + r[k + 1..])) + multiset{CallOf(s0, ms[r[k]])}
  {
    var init := r[..|r| - 1];
    if k == |r| - 1 {
      assert r[..k] + r[k + 1..] == init;
    } else {
      CallsOfWithout(s0, ms, init, k);
      var rest, last := init[..k] + init[k + 1..], r[|r| - 1];
      WithoutBeforeLast(r, k);
      CallsAdded(s0, ms, rest, last);
    }
  }

  lemma WithoutBeforeLast(r: seq<nat>, k: nat)
    requires k < |r| - 1
    ensures var init := r[..|r| - 1]; r[..k] + r[k + 1..] == (init[..k] + init[k + 1..]) + [r[|r| - 1]]
  {
    var init := r[..|r| - 1];
    assert init[..k] == r[..k] && r[k + 1..] == init[k + 1..] + [r[|r| - 1]];
  }

  // ---------------------------------------------------------------- when the watch is not the old path

  /** Nothing in the stores belongs to the move of a directory whose watch says `path`. */
  ghost predicate Alone(s0: State, m: Move, path: Path) {
    && m.isDir && m.cookie != 0 && m.cookie !in s0.files && m.wd > 0
    && m.wd in s0.watch && s0.watch[m.wd] == path
    && m.oldDir in s0.watch && m.newDir in s0.watch && m.oldDir != m.wd && m.newDir != m.wd
    && (forall k :: 0 <= k < |s0.dirs| ==>
          s0.dirs[k].cookie != m.cookie && s0.dirs[k].oldPath != Old(s0, m) && s0.dirs[k].oldPath != path)
  }

  /** What the stores say of it when `path` is not the old path: its records never meet. */
  ghost predicate Unpaired(s0: State, m: Move, path: Path, seen: set<Kind>, s: State) {
    && s.calls == s0.calls && s.watch == s0.watch
    && (m.cookie in s.files <==> To in seen)
    && (forall k :: 0 <= k < |s.dirs| ==>
          && (s.dirs[k].cookie == m.cookie ==> From in seen && s.dirs[k].wd <= 0)
          && (s.dirs[k].oldPath == Old(s0, m) ==> From in seen)
          && (s.dirs[k].oldPath == path ==> Self in seen))
  }

  lemma StaysUnpaired(s0: State, m: Move, path: Path, seen: set<Kind>, s: State, kind: Kind)
    requires Alone(s0, m, path) && path != Old(s0, m) && Unpaired(s0, m, path, seen, s) && kind !in seen
    ensures Unpaired(s0, m, path, seen + {kind}, Handle(s, EventOf(m, kind)))
  {
    match kind
    case From => FindOldIs(s.dirs, Old(s0, m), |s.dirs|);
    case Self => FindOldIs(s.dirs, path, |s.dirs|);
    case To => FindWatchedIs(s.dirs, m.cookie, |s.dirs|);
  }

  lemma NeverReported(s0: State, m: Move, path: Path, a: Kind, b: Kind, c: Kind)
    requires Alone(s0, m, path) && path != Old(s0, m) && a != b && b != c && a != c
    ensures Run(s0, [m], [(0, a), (0, b), (0, c)]).calls == s0.calls
  {
    var ms, es := [m], [(0, a), (0, b), (0, c)];
    assert es[..2] == [(0, a), (0, b)] && es[..2][..1] == [(0, a)] && [(0, a)][..0] == [];
    var s1 := Handle(s0, EventOf(m, a));
    var s2 := Handle(s1, EventOf(m, b));
    assert Run(s0, ms, [(0, a)]) == s1;
    assert Run(s0, ms, es[..2]) == s2;
    StaysUnpaired(s0, m, path, {}, s0, a);
    StaysUnpaired(s0, m, path, {a}, s1, b);
    StaysUnpaired(s0, m, path, {a} + {b}, s2, c);
  }

  /** The move of a directory is reported, in any order of its events, if and only if its watch says its
      old path. */
  lemma ReportedIffWatchIsOld(s0: State, m: Move, a: Kind, b: Kind, c: Kind)
    requires m.wd in s0.watch && Alone(s0, m, s0.watch[m.wd]) && a != b && b != c && a != c
    ensures var s := Run(s0, [m], [(0, a), (0, b), (0, c)]);
            s.calls == (if s0.watch[m.wd] == Old(s0, m) then s0.calls + [CallOf(s0, m)] else s0.calls)
  {
    var ms, es, path := [m], [(0, a), (0, b), (0, c)], s0.watch[m.wd];
    if path == Old(s0, m) {
      ThreeAreWhole(m, a, b, c);
      var order := EveryMoveReported(s0, ms, es);
      OneOf(s0, ms, order);
    } else {
      NeverReported(s0, m, path, a, b, c);
    }
  }

  lemma TwoDiffer(q: seq<nat>)
    requires |q| > 1 && forall j, k :: 0 <= j < k < |q| ==> q[j] != q[k]
    ensures q[0] != q[1]
  {
  }

  lemma OneOf(s0: State, ms: seq<Move>, order: seq<nat>)
    requires |ms| == 1 && Permutes(order, 1) && InRange(order, 1)
    ensures CallsOf(s0, ms, order) == [CallOf(s0, ms[0])]
  {
    assert 0 in order;
    if |order| > 1 {
      TwoDiffer(order);
    }
    assert order == [0];
  }

  /** A directory inside one that was moved: its watch still says the path from before, so a move of it is
      never reported. */
  lemma InsideMovedIsLost(s0: State, m: Move, a: Kind, b: Kind, c: Kind, inner: Move, d: Kind, e: Kind, f: Kind)
    requires m.wd in s0.watch && Alone(s0, m, Old(s0, m)) && New(s0, m) != Old(s0, m)
    requires a != b && b != c && a != c && d != e && e != f && d != f
    requires inner.oldDir == m.wd != inner.wd && inner.oldName != "" && inner.wd in s0.watch
    requires s0.watch[inner.wd] == Entry(Old(s0, m), inner.oldName)
    requires var s1 := Run(s0, [m], [(0, a), (0, b), (0, c)]);
             inner.wd in s1.watch && Alone(s1, inner, s1.watch[inner.wd])
    ensures var s1 := Run(s0, [m], [(0, a), (0, b), (0, c)]);
            && s1.calls == s0.calls + [CallOf(s0, m)]
            && Run(s1, [inner], [(0, d), (0, e), (0, f)]).calls == s1.calls
  {
    var s1 := Run(s0, [m], [(0, a), (0, b), (0, c)]);
    ReportedIffWatchIsOld(s0, m, a, b, c);
    OwnWatchMoves(s0, m, a, b, c, inner.wd);
    NamesTellApart(Old(s0, m), New(s0, m), inner.oldName);
    ReportedIffWatchIsOld(s1, inner, d, e, f);
  }

  /** One directory has moved, and only its own watch knows. */
  lemma OwnWatchMoves(s0: State, m: Move, a: Kind, b: Kind, c: Kind, w: int)
    requires m.wd in s0.watch && Alone(s0, m, Old(s0, m)) && a != b && b != c && a != c && w in s0.watch && w != m.wd
    ensures var s1 := Run(s0, [m], [(0, a), (0, b), (0, c)]);
            && m.wd in s1.watch && s1.watch[m.wd] == New(s0, m)
            && w in s1.watch && s1.watch[w] == s0.watch[w]
  {
    var ms, es: seq<Step> := [m], [(0, a), (0, b), (0, c)];
    ThreeAreWhole(m, a, b, c);
    var _ := EveryMoveReported(s0, ms, es);
    assert ms[0].wd == m.wd;
  }

  lemma ThreeAreWhole(m: Move, a: Kind, b: Kind, c: Kind)
    requires m.isDir && a != b && b != c && a != c
    ensures var es: seq<Step> := [(0, a), (0, b), (0, c)]; IsInterleaving([m], es) && IsWhole([m], es)
  {
    var es: seq<Step> := [(0, a), (0, b), (0, c)];
    forall i: nat, kind | i < 1 && kind in AllKinds(m)
      ensures (i, kind) in es
    {
      assert es[if kind == a then 0 else if kind == b then 1 else 2] == (i, kind);
    }
  }

  lemma NamesTellApart(p: Path, q: Path, name: string)
    requires p != q && name != ""
    ensures Entry(p, name) != Entry(q, name)
  {
    if |p| == |q| {
      assert Entry(p, name)[..|p|] == p && Entry(q, name)[..|q|] == q;
    }
  }

  /** Names without a separator: the entries of all directories are told apart. */
  lemma EntriesTellApart(p: Path, name: string, q: Path, other: string)
    requires name != "" && other != "" && '/' !in name && '/' !in other
    ensures Entry(p, name) == Entry(q, other) <==> p == q && name == other
  {
    if |p| < |q| {
      LongerDiffers(p, name, q, other);
    } else if |q| < |p| {
      LongerDiffers(q, other, p, name);
    } else {
      var a, b := Entry(p, name), Entry(q, other);
      assert a[..|p|] == p && b[..|p|] == q && a[|p| + 1..] == name && b[|p| + 1..] == other;
    }
  }

  lemma LongerDiffers(p: Path, name: string, q: Path, other: string)
    requires name != "" && other != "" && '/' !in name && |p| < |q|
    ensures Entry(p, name) != Entry(q, other)
  {
    var a, b := Entry(p, name), Entry(q, other);
    assert b[|q|] == '/';
    if |q| < |a| {
      assert a[|q|] == name[|q| - |p| - 1];
    }
  }

  // ---------------------------------------------------------------- buffers of events

  function HandleAll(s: State, es: seq<Event>): State {
    if es == [] then s else Handle(HandleAll(s, es[..|es| - 1]), es[|es| - 1])
  }

  function EventsOf(ms: seq<Move>, es: seq<Step>): (r: seq<Event>)
    requires forall k :: 0 <= k < |es| ==> es[k].0 < |ms|
    ensures |r| == |es| && forall k :: 0 <= k < |es| ==> r[k] == EventOf(ms[es[k].0], es[k].1)
  {
    seq(|es|, k requires 0 <= k < |es| => EventOf(ms[es[k].0], es[k].1))
  }

  lemma {:induction false} RunIsHandleAll(s0: State, ms: seq<Move>, es: seq<Step>)
    requires forall k :: 0 <= k < |es| ==> es[k].0 < |ms|
    ensures Run(s0, ms, es) == HandleAll(s0, EventsOf(ms, es))
  {
    if es != [] {
      var init := es[..|es| - 1];
      RunIsHandleAll(s0, ms, init);
      assert EventsOf(ms, es)[..|es| - 1] == EventsOf(ms, init);
    }
  }

  /** How the events are cut into reads does not matter. */
  lemma {:induction false} HandleAllAppend(s: State, es: seq<Event>, es': seq<Event>)
    ensures HandleAll(s, es + es') == HandleAll(HandleAll(s, es), es')
  {
    if es' == [] {
      assert es + es' == es;
    } else {
      HandleAllAppend(s, es, es'[..|es'| - 1]);
      assert (es + es')[..|es + es'| - 1] == es + es'[..|es'| - 1];
    }
  }
}
