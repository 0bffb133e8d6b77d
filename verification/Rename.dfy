/** The inotify callback as the source runs it, with its three stores. */
module Renames {
  import opened RenameSpec

  class RenameTracker {
    var watchMap: map<int, Path>
    var moveFileStorage: map<nat, Path>
    var moveDirStorage: seq<MoveDir>
    var calls: seq<Call>  // to the file cache

    function View(): State
      reads this
    {
      State(watchMap, moveFileStorage, moveDirStorage, calls)
    }

    constructor (watches: map<int, Path>)
      ensures View() == State(watches, map[], [], [])
    {
      watchMap, moveFileStorage, moveDirStorage, calls := watches, map[], [], [];
    }

    /** `move_dir_storage.erase(it)`. */
    method EraseDir(it: nat)
      requires it < |moveDirStorage|
      modifies this`moveDirStorage
      ensures moveDirStorage == Removed(old(moveDirStorage), it)
    {
      moveDirStorage := moveDirStorage[..it] + moveDirStorage[it + 1..];
    }

    method OnDirMovedFrom(cookie: nat, entryPath: Path)
      modifies this
      ensures View() == DirFrom(old(View()), cookie, entryPath)
    {
      var it := 0;
      while it < |moveDirStorage|
        invariant it <= |moveDirStorage| && View() == old(View())
        invariant forall j :: 0 <= j < it ==> moveDirStorage[j].oldPath != entryPath
      {
        if moveDirStorage[it].oldPath == entryPath {
          FindOldIs(moveDirStorage, entryPath, it);
          if cookie in moveFileStorage {
            moveDirStorage := moveDirStorage[it := moveDirStorage[it].(newPath := moveFileStorage[cookie])];
            var newPath := moveDirStorage[it].newPath;
            calls := calls + [DirMoved(entryPath, newPath)];
            watchMap := watchMap[moveDirStorage[it].wd := newPath];
            moveFileStorage := moveFileStorage - {cookie};
            EraseDir(it);
          } else {
            moveDirStorage := moveDirStorage[it := moveDirStorage[it].(cookie := cookie)];
          }
          return;
        }
        it := it + 1;
      }
      FindOldIs(moveDirStorage, entryPath, it);
      var tmp := MoveDir(-1, cookie, entryPath, "");
      if cookie in moveFileStorage {
        tmp := tmp.(newPath := moveFileStorage[cookie]);
      }
      moveDirStorage := moveDirStorage + [tmp];
    }

    method OnDirMovedTo(cookie: nat, entryPath: Path)
      modifies this
      ensures View() == DirTo(old(View()), cookie, entryPath)
    {
      ghost var ds := moveDirStorage;
      var it := 0;
      while it < |moveDirStorage|
        invariant it <= |moveDirStorage| == |ds| && View() == old(View()).(dirs := moveDirStorage)
        invariant moveDirStorage == NoteNew(ds, cookie, entryPath, it)
        invariant forall j :: 0 <= j < it ==> ds[j].cookie != cookie || ds[j].wd <= 0
      {
        if moveDirStorage[it].cookie == cookie {
          moveDirStorage := moveDirStorage[it := moveDirStorage[it].(newPath := entryPath)];
          if moveDirStorage[it].wd > 0 {
            FindWatchedIs(ds, cookie, it);
            watchMap := watchMap[moveDirStorage[it].wd := entryPath];
            calls := calls + [DirMoved(moveDirStorage[it].oldPath, moveDirStorage[it].newPath)];
            EraseDir(it);
            assert moveDirStorage == Removed(NoteNew(ds, cookie, entryPath, it), it);
            return;
          }
        }
        it := it + 1;
      }
      FindWatchedIs(ds, cookie, it);
      moveFileStorage := moveFileStorage[cookie := entryPath];
    }

    method OnDirMovedSelf(wd: int, parentPath: Path)
      modifies this
      ensures View() == DirSelf(old(View()), wd, parentPath)
    {
      var it := 0;
      while it < |moveDirStorage|
        invariant it <= |moveDirStorage| && View() == old(View())
        invariant forall j :: 0 <= j < it ==> moveDirStorage[j].oldPath != parentPath
      {
        if moveDirStorage[it].oldPath == parentPath {
          FindOldIs(moveDirStorage, parentPath, it);
          if moveDirStorage[it].cookie in moveFileStorage {
            moveFileStorage := moveFileStorage - {moveDirStorage[it].cookie};
            watchMap := watchMap[wd := moveDirStorage[it].newPath];
            calls := calls + [DirMoved(moveDirStorage[it].oldPath, moveDirStorage[it].newPath)];
            EraseDir(it);
          } else {
            moveDirStorage := moveDirStorage[it := moveDirStorage[it].(wd := wd)];
          }
          return;
        }
        it := it + 1;
      }
      FindOldIs(moveDirStorage, parentPath, it);
      moveDirStorage := moveDirStorage + [MoveDir(wd, 0, parentPath, "")];
    }

    method OnFileMoved(kind: Kind, cookie: nat, entryPath: Path)
      requires kind != Self
      modifies this
      ensures View() == FileMove(old(View()), kind, cookie, entryPath)
    {
      if cookie in moveFileStorage {
        if kind.From? {
          calls := calls + [FileMoved(entryPath, moveFileStorage[cookie])];
        } else {
          calls := calls + [FileMoved(moveFileStorage[cookie], entryPath)];
        }
        moveFileStorage := moveFileStorage - {cookie};
      } else {
        moveFileStorage := moveFileStorage[cookie := entryPath];
      }
    }

    /** One event of the buffer. */
    method OnEvent(event: Event)
      modifies this
      ensures View() == Handle(old(View()), event)
    {
      if event.wd !in watchMap {  // operator[]
        watchMap := watchMap[event.wd := ""];
      }
      var parentPath := watchMap[event.wd];
      var entryPath := if |event.name| > 0 then parentPath + "/" + event.name else parentPath;
      match event.kind {
        case From =>
          if event.isDir {
            OnDirMovedFrom(event.cookie, entryPath);
          } else {
            OnFileMoved(From, event.cookie, entryPath);
          }
        case To =>
          if event.isDir {
            OnDirMovedTo(event.cookie, entryPath);
          } else {
            OnFileMoved(To, event.cookie, entryPath);
          }
        case Self =>
          OnDirMovedSelf(event.wd, parentPath);
      }
    }

    /** The read callback: every event of a buffer. */
    method OnRead(buffer: seq<Event>)
      modifies this
      ensures View() == HandleAll(old(View()), buffer)
    {
      var i := 0;
      while i < |buffer|
        invariant i <= |buffer| && View() == HandleAll(old(View()), buffer[..i])
      {
        OnEvent(buffer[i]);
        i := i + 1;
        assert buffer[..i][..i - 1] == buffer[..i - 1];
      }
      assert buffer[..i] == buffer;
    }
  }
}
