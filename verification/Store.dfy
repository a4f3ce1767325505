/** The layout store: the in-memory file, its operations, and saving as a sequence of file-system steps. */
module Store {
  import opened Types
  import opened SliceDelete

  // ---- the file system ----

  /** What a file holds: a complete encoding of some store, or anything less. */
  datatype Content = Whole(f: File) | Torn

  /** Unsynced contents may be lost in a crash. */
  datatype FileState = FileState(content: Content, synced: bool)

  /** Which steps of a save fail. */
  datatype Faults = Faults(mkdir: bool, encode: bool, create: bool, write: bool, sync: bool, close: bool, rename: bool,
    remove: bool)

  predicate SaveFails(faults: Faults) {
    faults.mkdir || faults.encode || faults.create || faults.write || faults.sync || faults.close || faults.rename
  }

  /** A save succeeds exactly when every step up to the rename does; only removing a left-over temp file does not
      matter. */
  lemma SaveNeedsEveryStep(faults: Faults)
    ensures !SaveFails(faults) <==>
      faults == Faults(false, false, false, false, false, false, false, true)
      || faults == Faults(false, false, false, false, false, false, false, false)
  {}

  class FileSystem {
    var files: map<string, FileState>
    ghost var trace: seq<map<string, FileState>>  // every state since the start

    constructor ()
      ensures files == map[] && trace == [map[]]
    {
      files, trace := map[], [map[]];
    }

    /** Appends to the trace whatever state the disk is in now. */
    ghost method Record()
      modifies this`trace
      ensures trace == old(trace) + [files]
    {
      trace := trace + [files];
    }

    method CreateTemp(fails: bool, name: string) returns (ok: bool)
      requires name !in files
      modifies this
      ensures ok == !fails
      ensures files == if ok then old(files)[name := FileState(Torn, false)] else old(files)
      ensures trace == old(trace) + [files]
    {
      ok := !fails;
      if ok {
        files := files[name := FileState(Torn, false)];
      }
      Record();
    }

    /** A failing write leaves a part of the bytes. */
    method Write(fails: bool, name: string, f: File) returns (ok: bool)
      requires name in files
      modifies this
      ensures ok == !fails
      ensures files == old(files)[name := FileState(if ok then Whole(f) else Torn, false)]
      ensures trace == old(trace) + [old(files)[name := FileState(Torn, false)], files]
    {
      ok := !fails;
      files := files[name := FileState(Torn, false)];
      Record();
      if ok {
        files := files[name := FileState(Whole(f), false)];
      }
      Record();
    }

    method Sync(fails: bool, name: string) returns (ok: bool)
      requires name in files
      modifies this
      ensures ok == !fails
      ensures files == if ok then old(files)[name := old(files)[name].(synced := true)] else old(files)
      ensures trace == old(trace) + [files]
    {
      ok := !fails;
      if ok {
        files := files[name := files[name].(synced := true)];
      }
      Record();
    }

    /** Replaces the target in one step. */
    method Rename(fails: bool, from: string, to: string) returns (ok: bool)
      requires from in files && from != to
      modifies this
      ensures ok == !fails
      ensures files == if ok then (old(files) - {from})[to := old(files)[from]] else old(files)
      ensures trace == old(trace) + [files]
    {
      ok := !fails;
      if ok {
        files := (files - {from})[to := files[from]];
      }
      Record();
    }

    method Remove(fails: bool, name: string)
      modifies this
      ensures files == if fails then old(files) else old(files) - {name}
      ensures trace == old(trace) + [files]
    {
      if !fails {
        files := files - {name};
      }
      Record();
    }
  }

  /** What can be read at path after a crash in this state: a synced file keeps its contents, an unsynced one may
      have become anything. */
  ghost predicate MaySurvive(files: map<string, FileState>, path: string, c: Option<Content>) {
    if path !in files then c.None?
    else files[path].synced ==> c == Some(files[path].content)
  }

  /** The target is as it was, or holds the whole new contents on stable storage. */
  ghost predicate OldOrNew(before: map<string, FileState>, now: map<string, FileState>, path: string, f: File) {
    || (path in now && now[path] == FileState(Whole(f), true))
    || ((path in now <==> path in before) && (path in now ==> now[path] == before[path]))
  }

  /** Since `start`, the disk passed through such states only. */
  ghost predicate OnlyOldOrNew(before: map<string, FileState>, start: seq<map<string, FileState>>,
                               trace: seq<map<string, FileState>>, path: string, f: File)
  {
    start <= trace && forall k :: |start| <= k < |trace| ==> OldOrNew(before, trace[k], path, f)
  }

  lemma TraceGrows(before: map<string, FileState>, start: seq<map<string, FileState>>,
                   trace: seq<map<string, FileState>>, path: string, f: File, now: map<string, FileState>)
    requires OnlyOldOrNew(before, start, trace, path, f) && OldOrNew(before, now, path, f)
    ensures OnlyOldOrNew(before, start, trace + [now], path, f)
  {
    hide OldOrNew;
  }

  /** Touching the temp file touches nothing else. */
  lemma TempIsHarmless(before: map<string, FileState>, path: string, f: File, temp: string, x: FileState)
    requires temp != path
    ensures OldOrNew(before, before, path, f) && OldOrNew(before, before[temp := x], path, f)
    ensures OldOrNew(before, before[path := FileState(Whole(f), true)], path, f)
  {}

  /** A crash in any such state leaves the old or the new file, never less, provided the old one was on stable
      storage. */
  lemma CrashLeavesOldOrNew(before: map<string, FileState>, now: map<string, FileState>, path: string, f: File,
                            c: Option<Content>)
    requires OldOrNew(before, now, path, f) && MaySurvive(now, path, c)
    requires path in before ==> before[path].synced
    ensures c == Some(Whole(f)) || (if path in before then c == Some(before[path].content) else c == None)
  {}

  // ---- operations on the layout list ----

  /** The first layout with this id. */
  function IndexOf(layouts: seq<Layout>, id: string): (r: Option<nat>)
    ensures r.Some? ==> r.value < |layouts| && layouts[r.value].id == id
    ensures r.Some? ==> forall j :: 0 <= j < r.value ==> layouts[j].id != id
    ensures r.None? ==> forall j :: 0 <= j < |layouts| ==> layouts[j].id != id
  {
    if layouts == [] then None
    else if layouts[0].id == id then Some(0)
    else match IndexOf(layouts[1..], id)
      case None => None
      case Some(i) =>
        assert forall j :: 0 < j < |layouts| ==> layouts[j] == layouts[1..][j - 1];
        Some(i + 1)
  }

  lemma IndexIs(layouts: seq<Layout>, id: string, i: nat)
    requires i < |layouts| && layouts[i].id == id && forall j :: 0 <= j < i ==> layouts[j].id != id
    ensures IndexOf(layouts, id) == Some(i)
  {
    hide IndexOf;
    var r := IndexOf(layouts, id);
    assert r.Some?;
  }

  function Removed(layouts: seq<Layout>, i: nat): seq<Layout>
    requires i < |layouts|
  {
    layouts[..i] + layouts[i + 1..]
  }

  function Ticked(l: Layout, windowIdx: nat, ticked: bool, now: int): Layout
    requires windowIdx < |l.windows|
  {
    l.(windows := l.windows[windowIdx := l.windows[windowIdx].(ticked := ticked)], updated := now)
  }

  function WithLayout(f: File, i: nat, l: Layout): File
    requires i < |f.layouts|
  {
    f.(layouts := f.layouts[i := l])
  }

  /** Whether restoring minimizes foreign windows; on unless set otherwise. */
  function Minimizes(f: File): bool {
    match f.minimizeOthers
    case None => true
    case Some(v) => v
  }

  /** The store in memory. The list is a slice: the first `count` elements of a backing array that operations write in
      place and that grows only when it is full. */
  class Store {
    const fs: FileSystem
    const path: string
    var minimizeOthers: Option<bool>
    var layouts: array<Layout>
    var count: nat

    ghost predicate Valid()
      reads this
    {
      count <= layouts.Length
    }

    /** What the store holds. */
    function Contents(): File
      requires Valid()
      reads this, layouts
    {
      File(minimizeOthers, layouts[..count])
    }

    constructor (fs: FileSystem, path: string)
      ensures this.fs == fs && this.path == path && Valid() && Contents() == File(None, []) && fresh(layouts)
    {
      this.fs, this.path, minimizeOthers, count := fs, path, None, 0;
      layouts := new Layout[0];
    }

    method Find(id: string) returns (r: Option<nat>)
      requires Valid()
      ensures r == IndexOf(Contents().layouts, id)
    {
      hide IndexOf;
      for i := 0 to count
        invariant forall j :: 0 <= j < i ==> Contents().layouts[j].id != id
      {
        if layouts[i].id == id {
          IndexIs(Contents().layouts, id, i);
          return Some(i);
        }
      }
      return None;
    }

    method Get(id: string) returns (r: Option<Layout>)
      requires Valid()
      ensures r == match IndexOf(Contents().layouts, id) case None => None case Some(i) => Some(Contents().layouts[i])
    {
      var i := Find(id);
      r := if i.None? then None else Some(layouts[i.value]);
    }

    /** Appends in place while there is room, else in a larger copy. */
    method Add(l: Layout)
      requires Valid()
      modifies this`layouts, this`count, layouts
      ensures Valid() && minimizeOthers == old(minimizeOthers) && count == old(count) + 1
      ensures old(count < layouts.Length) ==>
        layouts == old(layouts) && layouts[..] == old(layouts[..])[old(count) := l]
      ensures old(count == layouts.Length) ==> fresh(layouts) && old(layouts)[..] == old(layouts[..])
      ensures Contents().layouts == old(Contents().layouts) + [l]
    {
      if count == layouts.Length {
        assert count + 1 > count;
        var capacity: nat :| capacity > count;
        var grown := new Layout[capacity];
        forall k | 0 <= k < count {
          grown[k] := layouts[k];
        }
        layouts := grown;
      }
      layouts[count] := l;
      count := count + 1;
    }

    method Replace(id: string, l: Layout) returns (ok: bool)
      requires Valid()
      modifies layouts
      ensures ok == IndexOf(old(Contents()).layouts, id).Some?
      ensures Contents() == if ok then WithLayout(old(Contents()), IndexOf(old(Contents()).layouts, id).value, l)
                            else old(Contents())
    {
      var i := Find(id);
      ok := i.Some?;
      if ok {
        layouts[i.value] := l;
      }
    }

    /** Shifts the tail down in place. */
    method Delete(id: string) returns (ok: bool)
      requires Valid()
      modifies this`count, layouts
      ensures Valid() && ok == IndexOf(old(Contents()).layouts, id).Some?
      ensures layouts[..] == if ok then Shifted(old(Contents()).layouts, IndexOf(old(Contents()).layouts, id).value)
                                        + old(layouts[count..])
                             else old(layouts[..])
      ensures count == if ok then old(count) - 1 else old(count)
      ensures Contents() == if ok
        then old(Contents()).(layouts := Removed(old(Contents()).layouts, IndexOf(old(Contents()).layouts, id).value))
                            else old(Contents())
    {
      var i := Find(id);
      ok := i.Some?;
      if ok {
        SliceDelete.DeleteShift(layouts, count, i.value);
        assert layouts[..] == layouts[..count] + layouts[count..];
        count := count - 1;
        assert layouts[..count] == layouts[..count + 1][..count];
      }
    }

    method SetInclude(id: string, windowIdx: int, ticked: bool, now: int) returns (ok: bool)
      requires Valid()
      modifies layouts
      ensures var i := IndexOf(old(Contents()).layouts, id);
        && ok == (i.Some? && 0 <= windowIdx < |old(Contents()).layouts[i.value].windows|)
        && Contents() == if ok then WithLayout(old(Contents()), i.value,
             Ticked(old(Contents()).layouts[i.value], windowIdx, ticked, now))
                         else old(Contents())
    {
      var i := Find(id);
      ok := i.Some? && 0 <= windowIdx < |layouts[i.value].windows|;
      if ok {
        layouts[i.value] := Ticked(layouts[i.value], windowIdx, ticked, now);
      }
    }

    method SetMinimizeOthers(v: bool)
      requires Valid()
      modifies this`minimizeOthers
      ensures Contents() == old(Contents()).(minimizeOthers := Some(v))
    {
      minimizeOthers := Some(v);
    }

    /** What a fresh start would load. */
    ghost function OnDisk(): File
      reads this, fs
    {
      if path in fs.files && fs.files[path].content.Whole? then fs.files[path].content.f else File(None, [])
    }

    /** Temp file, write, sync, close, rename. Every state the disk passes through leaves the target as it was or
        holding the whole new contents; only a temp file whose removal failed can be left over. */
    method Save(faults: Faults, temp: string) returns (ok: bool)
      requires Valid() && temp != path && temp !in fs.files
      modifies fs
      ensures ok == !SaveFails(faults)
      ensures ok ==> fs.files == old(fs.files)[path := FileState(Whole(Contents()), true)]
      ensures !ok ==> fs.files - {temp} == old(fs.files) && (temp in fs.files ==> faults.remove)
      ensures OnDisk() == if ok then Contents() else old(OnDisk())
      ensures OnlyOldOrNew(old(fs.files), old(fs.trace), fs.trace, path, Contents())
    {
      hide OldOrNew, OnlyOldOrNew;
      ghost var before, start := fs.files, fs.trace;
      var file := Contents();
      NothingTraced(before, start, path, file);
      if faults.mkdir || faults.encode {
        return false;
      }
      ok := fs.CreateTemp(faults.create, temp);
      TempIsHarmless(before, path, file, temp, FileState(Torn, false));
      TraceGrows(before, start, start, path, file, fs.files);
      if !ok {
        return;
      }
      ok := WriteTemp(file, faults, temp, before, start);
      if ok {
        ghost var was := fs.trace;
        ok := fs.Rename(faults.rename, temp, path);
        TempIsHarmless(before, path, file, temp, FileState(Whole(file), true));
        assert before[temp := FileState(Whole(file), true)] - {temp} == before;
        TraceGrows(before, start, was, path, file, fs.files);
      }
      if !ok {
        Discard(file, faults, temp, before, start);
      }
    }

    /** Fills the temp file and brings it to stable storage. */
    method WriteTemp(file: File, faults: Faults, temp: string, ghost before: map<string, FileState>,
                     ghost start: seq<map<string, FileState>>)
      returns (ok: bool)
      requires temp != path && fs.files == before[temp := FileState(Torn, false)]
      requires OnlyOldOrNew(before, start, fs.trace, path, file)
      modifies fs
      ensures ok == !(faults.write || faults.sync || faults.close)
      ensures ok ==> fs.files == before[temp := FileState(Whole(file), true)]
      ensures temp in fs.files && fs.files == before[temp := fs.files[temp]]
      ensures OnlyOldOrNew(before, start, fs.trace, path, file)
    {
      hide OldOrNew, OnlyOldOrNew;
      ghost var was, torn := fs.trace, FileState(Torn, false);
      ok := fs.Write(faults.write, temp, file);
      OverwriteTwice(before, temp, torn, torn);
      OverwriteTwice(before, temp, torn, fs.files[temp]);
      TempIsHarmless(before, path, file, temp, FileState(Torn, false));
      TempIsHarmless(before, path, file, temp, fs.files[temp]);
      TraceGrows(before, start, was, path, file, before[temp := FileState(Torn, false)]);
      TraceGrows(before, start, was + [before[temp := FileState(Torn, false)]], path, file, fs.files);
      assert fs.trace == was + [before[temp := FileState(Torn, false)]] + [fs.files];
      if !ok {
        return;
      }
      was := fs.trace;
      ghost var written := fs.files[temp];
      ok := fs.Sync(faults.sync, temp);
      OverwriteTwice(before, temp, written, fs.files[temp]);
      TempIsHarmless(before, path, file, temp, fs.files[temp]);
      TraceGrows(before, start, was, path, file, fs.files);
      ok := ok && !faults.close;
    }

    method Discard(ghost file: File, faults: Faults, temp: string, ghost before: map<string, FileState>,
                   ghost start: seq<map<string, FileState>>)
      requires temp != path && temp !in before && temp in fs.files && fs.files == before[temp := fs.files[temp]]
      requires OnlyOldOrNew(before, start, fs.trace, path, file)
      modifies fs
      ensures fs.files - {temp} == before && (temp in fs.files ==> faults.remove)
      ensures (path in fs.files <==> path in before) && (path in before ==> fs.files[path] == before[path])
      ensures OnlyOldOrNew(before, start, fs.trace, path, file)
    {
      hide OldOrNew, OnlyOldOrNew;
      ghost var was := fs.trace;
      TempIsHarmless(before, path, file, temp, fs.files[temp]);
      assert before[temp := fs.files[temp]] - {temp} == before;
      fs.Remove(faults.remove, temp);
      TraceGrows(before, start, was, path, file, fs.files);
    }
  }

  lemma OverwriteTwice(before: map<string, FileState>, name: string, x: FileState, y: FileState)
    ensures before[name := x][name := y] == before[name := y]
  {}

  lemma NothingTraced(before: map<string, FileState>, start: seq<map<string, FileState>>, path: string, f: File)
    ensures OnlyOldOrNew(before, start, start, path, f)
  {}
}
