/** Replacing one output file through directory descriptors, on a file system in which every open,
    write, sync and rename may fail. */
module AtomicWrite {
  import opened Wrappers

  datatype Entry = Directory(dir: nat) | Regular(inode: nat) | Symlink

  /** Directories by number, each with its entries, and file contents by inode. */
  datatype Disk = Disk(dirs: map<nat, map<string, Entry>>, files: map<nat, string>)

  datatype Handle = DirHandle(dir: nat) | FileHandle(inode: nat)

  function Link(disk: Disk, dir: nat, name: string, entry: Entry): Disk
    requires dir in disk.dirs
  {
    disk.(dirs := disk.dirs[dir := disk.dirs[dir][name := entry]])
  }

  function Unlink(disk: Disk, dir: nat, name: string): Disk
    requires dir in disk.dirs
  {
    disk.(dirs := disk.dirs[dir := disk.dirs[dir] - {name}])
  }

  function Store(disk: Disk, inode: nat, text: string): Disk {
    disk.(files := disk.files[inode := text])
  }

  /** Which system calls fail, and how much of the text a write gets out before the rest. */
  datatype Faults = Faults(
    root: bool, part: nat -> bool, create: bool, written: nat, write: bool, sync: bool, replace: bool)

  class FileSystem {
    var disk: Disk
    var open: map<nat, Handle>
    var nextFd: nat
    var nextInode: nat
    ghost var history: seq<Disk>  // every state the disk went through

    ghost predicate Valid()
      reads this
    {
      && (forall fd | fd in open :: fd < nextFd)
      && (forall fd | fd in open && open[fd].DirHandle? :: open[fd].dir in disk.dirs)
      && (forall i | i in disk.files :: i < nextInode)
      && (forall d, n | d in disk.dirs && n in disk.dirs[d] && disk.dirs[d][n].Regular? ::
            disk.dirs[d][n].inode in disk.files)
    }

    /** Opens a directory without following a symbolic link. */
    method OpenDirectory(dir: nat, exists_: bool, fail: bool) returns (fd: Option<nat>)
      requires Valid() && (exists_ ==> dir in disk.dirs)
      modifies this`open, this`nextFd
      ensures Valid()
      ensures fd.Some? <==> exists_ && !fail
      ensures fd.None? ==> open == old(open)
      ensures fd.Some? ==> fd.value !in old(open) && open == old(open)[fd.value := DirHandle(dir)]
    {
      if !exists_ || fail {
        return None;
      }
      open := open[nextFd := DirHandle(dir)];
      fd := Some(nextFd);
      nextFd := nextFd + 1;
    }

    method Close(fd: nat)
      requires Valid() && fd in open
      modifies this`open
      ensures Valid() && open == old(open) - {fd}
    {
      open := open - {fd};
    }

    /** `O_CREAT | O_EXCL`: any existing entry makes it fail. */
    method CreateExclusive(dir: nat, name: string, fail: bool) returns (fd: Option<nat>)
      requires Valid() && dir in disk.dirs
      modifies this
      ensures Valid() && history == old(history) + (if fd.Some? then [disk] else [])
      ensures fd.Some? <==> name !in old(disk).dirs[dir] && !fail
      ensures fd.None? ==> open == old(open) && disk == old(disk)
      ensures fd.Some? ==>
                && old(nextInode) !in old(disk).files && fd.value !in old(open)
                && open == old(open)[fd.value := FileHandle(old(nextInode))]
                && disk == Link(Store(old(disk), old(nextInode), ""), dir, name, Regular(old(nextInode)))
    {
      if name in disk.dirs[dir] || fail {
        return None;
      }
      disk := Link(Store(disk, nextInode, ""), dir, name, Regular(nextInode));
      open := open[nextFd := FileHandle(nextInode)];
      fd := Some(nextFd);
      nextFd, nextInode := nextFd + 1, nextInode + 1;
      history := history + [disk];
    }

    /** Some of the text reaches the disk first; the rest follows unless the call fails. */
    method Write(inode: nat, text: string, written: nat, fail: bool) returns (ok: bool)
      requires Valid() && inode in disk.files
      modifies this`disk, this`history
      ensures Valid() && ok == !fail
      ensures var partial := Store(old(disk), inode, text[..if written < |text| then written else |text|]);
              && (fail ==> disk == partial && history == old(history) + [partial])
              && (!fail ==> disk == Store(old(disk), inode, text) && history == old(history) + [partial, disk])
    {
      ghost var before := disk;
      disk := Store(disk, inode, text[..if written < |text| then written else |text|]);
      history := history + [disk];
      if !fail {
        disk := Store(disk, inode, text);
        assert disk == Store(before, inode, text);
        history := history + [disk];
      }
      return !fail;
    }

    /** Renames over the destination in one step; a directory cannot be replaced by a file. */
    method Replace(dir: nat, from: string, to: string, fail: bool) returns (ok: bool)
      requires Valid() && dir in disk.dirs && from in disk.dirs[dir] && from != to
      modifies this`disk, this`history
      ensures Valid() && history == old(history) + (if ok then [disk] else [])
      ensures ok <==> !fail && !(to in old(disk).dirs[dir] && old(disk).dirs[dir][to].Directory?)
      ensures disk == if ok then Unlink(Link(old(disk), dir, to, old(disk).dirs[dir][from]), dir, from) else old(disk)
    {
      if fail || (to in disk.dirs[dir] && disk.dirs[dir][to].Directory?) {
        return false;
      }
      disk := Unlink(Link(disk, dir, to, disk.dirs[dir][from]), dir, from);
      history := history + [disk];
      return true;
    }

    method Remove(dir: nat, name: string)
      requires Valid() && dir in disk.dirs
      modifies this`disk, this`history
      ensures Valid() && disk == Unlink(old(disk), dir, name) && history == old(history) + [disk]
    {
      disk := Unlink(disk, dir, name);
      history := history + [disk];
    }
  }

  // ---- The target ----

  /** An output proven to lie beneath an allowed root; its name starts with a letter or a digit. */
  datatype Target = Target(root: nat, parts: seq<string>, filename: string)

  predicate ValidTarget(target: Target) {
    target.filename != "" && target.filename[0] != '.'
  }

  predicate IsTemporary(name: string) {
    name != "" && name[0] == '.'
  }

  /** The directory `parts` leads to from `dir`, if every step is a real directory. */
  function Walk(disk: Disk, dir: nat, parts: seq<string>): (r: Option<nat>)
    ensures r.Some? ==> r.value in disk.dirs
    decreases parts
  {
    if dir !in disk.dirs then None
    else if parts == [] then Some(dir)
    else if parts[0] in disk.dirs[dir] && disk.dirs[dir][parts[0]].Directory? then
      Walk(disk, disk.dirs[dir][parts[0]].dir, parts[1..])
    else None
  }

  /** Real directories from `root` to `dir`, each an entry of the one before it under the next part. */
  ghost predicate Chain(disk: Disk, root: nat, parts: seq<string>, dirs: seq<nat>, dir: nat) {
    && |dirs| == |parts| + 1 && dirs[0] == root && dirs[|parts|] == dir
    && (forall k | 0 <= k <= |parts| :: dirs[k] in disk.dirs)
    && forall k | 0 <= k < |parts| ::
         parts[k] in disk.dirs[dirs[k]] && disk.dirs[dirs[k]][parts[k]] == Directory(dirs[k + 1])
  }

  lemma ChainCons(disk: Disk, root: nat, parts: seq<string>, dirs: seq<nat>, dir: nat)
    requires parts != [] && dirs != []
    ensures Chain(disk, root, parts, [root] + dirs, dir)
            <==> && root in disk.dirs && parts[0] in disk.dirs[root] && disk.dirs[root][parts[0]] == Directory(dirs[0])
                 && Chain(disk, dirs[0], parts[1..], dirs, dir)
  {
    var all := [root] + dirs;
    assert all[1..] == dirs && forall k | 0 <= k < |dirs| :: all[k + 1] == dirs[k];
    assert forall k | 0 <= k < |parts| - 1 :: parts[1..][k] == parts[k + 1];
    if Chain(disk, root, parts, all, dir) {
      assert all[0] in disk.dirs && all[1] == dirs[0];
      forall k | 0 <= k <= |parts| - 1 ensures dirs[k] in disk.dirs {
        assert all[k + 1] in disk.dirs;
      }
      forall k | 0 <= k < |parts| - 1
        ensures parts[1..][k] in disk.dirs[dirs[k]] && disk.dirs[dirs[k]][parts[1..][k]] == Directory(dirs[k + 1])
      {
        assert parts[k + 1] in disk.dirs[all[k + 1]];
      }
    }
  }

  lemma {:induction false} WalkHasChain(disk: Disk, root: nat, parts: seq<string>) returns (dirs: seq<nat>)
    requires Walk(disk, root, parts).Some?
    ensures Chain(disk, root, parts, dirs, Walk(disk, root, parts).value)
    decreases parts
  {
    if parts == [] {
      dirs := [root];
    } else {
      var next := disk.dirs[root][parts[0]].dir;
      var rest := WalkHasChain(disk, next, parts[1..]);
      dirs := [root] + rest;
      ChainCons(disk, root, parts, rest, Walk(disk, root, parts).value);
    }
  }

  lemma {:induction false} ChainIsWalked(disk: Disk, root: nat, parts: seq<string>, dirs: seq<nat>, dir: nat)
    requires Chain(disk, root, parts, dirs, dir)
    ensures Walk(disk, root, parts) == Some(dir)
    decreases parts
  {
    if parts != [] {
      assert dirs == [root] + dirs[1..];
      ChainCons(disk, root, parts, dirs[1..], dir);
      ChainIsWalked(disk, dirs[1], parts[1..], dirs[1..], dir);
    }
  }

  /** The walk finds a directory exactly when a chain of real directories leads there, part by part. */
  lemma WalkExactly(disk: Disk, root: nat, parts: seq<string>, dir: nat)
    ensures Walk(disk, root, parts) == Some(dir) <==> exists dirs :: Chain(disk, root, parts, dirs, dir)
  {
    if Walk(disk, root, parts) == Some(dir) { var dirs := WalkHasChain(disk, root, parts); }
    forall dirs | Chain(disk, root, parts, dirs, dir) ensures Walk(disk, root, parts) == Some(dir) {
      ChainIsWalked(disk, root, parts, dirs, dir);
    }
  }

  ghost predicate NoOpenFault(target: Target, f: Faults) {
    !f.root && forall i | 0 <= i < |target.parts| :: !f.part(i)
  }

  /** Closing the old descriptor after opening the next one leaves the next one only. */
  lemma Reopened(open: map<nat, Handle>, fd: nat, handle: Handle, next: Option<nat>, nextHandle: Handle)
    requires fd !in open && (next.Some? ==> next.value !in open[fd := handle])
    ensures open[fd := handle] - {fd} == open
    ensures next.Some? ==> open[fd := handle][next.value := nextHandle] - {fd} == open[next.value := nextHandle]
  {
  }

  /** Holds one descriptor at a time, and none when it fails. */
  method OpenValidatedParent(fs: FileSystem, target: Target, f: Faults) returns (fd: Option<nat>)
    requires fs.Valid()
    modifies fs`open, fs`nextFd
    ensures fs.Valid()
    ensures fd.Some? <==> NoOpenFault(target, f) && Walk(fs.disk, target.root, target.parts).Some?
    ensures fd.None? ==> fs.open == old(fs.open)
    ensures fd.Some? ==>
              && fd.value !in old(fs.open)
              && fs.open == old(fs.open)[fd.value := DirHandle(Walk(fs.disk, target.root, target.parts).value)]
  {
    var dir := target.root;
    fd := fs.OpenDirectory(dir, dir in fs.disk.dirs, f.root);
    if fd.None? {
      return;
    }
    for i := 0 to |target.parts|
      invariant fs.Valid() && !f.root && dir in fs.disk.dirs
      invariant forall k | 0 <= k < i :: !f.part(k)
      invariant fd.Some? && fd.value !in old(fs.open) && fs.open == old(fs.open)[fd.value := DirHandle(dir)]
      invariant Walk(fs.disk, dir, target.parts[i..]) == Walk(fs.disk, target.root, target.parts)
    {
      var part := target.parts[i];
      assert target.parts[i..][1..] == target.parts[i + 1..];
      var isDir := part in fs.disk.dirs[dir] && fs.disk.dirs[dir][part].Directory?;
      var next := if isDir then fs.disk.dirs[dir][part].dir else dir;
      var nextFd := fs.OpenDirectory(next, isDir && next in fs.disk.dirs, f.part(i));
      fs.Close(fd.value);
      Reopened(old(fs.open), fd.value, DirHandle(dir), nextFd, DirHandle(next));
      if nextFd.None? {
        return None;
      }
      fd, dir := nextFd, next;
    }
  }

  // ---- What an observer may see ----

  /** The text a reader finds at a name. */
  ghost function ReadAt(disk: Disk, dir: nat, name: string): Option<string> {
    if && dir in disk.dirs && name in disk.dirs[dir] && disk.dirs[dir][name].Regular?
       && disk.dirs[dir][name].inode in disk.files
    then Some(disk.files[disk.dirs[dir][name].inode]) else None
  }

  ghost predicate SameEntry(before: Disk, after: Disk, dir: nat, name: string) {
    && dir in before.dirs && dir in after.dirs
    && (name in before.dirs[dir] <==> name in after.dirs[dir])
    && (name in before.dirs[dir] ==> before.dirs[dir][name] == after.dirs[dir][name])
  }

  /** Only the destination and the temporary of one directory may differ; no old file's contents
      changed; the destination is untouched or holds the complete new text. */
  ghost predicate SafeState(before: Disk, now: Disk, dir: nat, filename: string, temporary: string, content: string) {
    && now.dirs.Keys == before.dirs.Keys && dir in before.dirs
    && (forall d | d in before.dirs && d != dir :: now.dirs[d] == before.dirs[d])
    && (forall n | n != filename && n != temporary :: SameEntry(before, now, dir, n))
    && (forall i | i in before.files :: i in now.files && now.files[i] == before.files[i])
    && (SameEntry(before, now, dir, filename) || ReadAt(now, dir, filename) == Some(content))
  }

  /** A chain of real directories leads to `dir`. */
  ghost predicate LeadsTo(disk: Disk, target: Target, dir: nat) {
    exists dirs :: Chain(disk, target.root, target.parts, dirs, dir)
  }

  /** `after` is `before` with the file `filename` of `dir` new and holding `content`, and nothing else. */
  ghost predicate OnlyWrote(before: Disk, after: Disk, dir: nat, filename: string, content: string) {
    && dir in before.dirs && after.dirs.Keys == before.dirs.Keys
    && (forall d | d in before.dirs && d != dir :: after.dirs[d] == before.dirs[d])
    && after.dirs[dir].Keys == before.dirs[dir].Keys + {filename}
    && (forall n | n in before.dirs[dir] && n != filename :: after.dirs[dir][n] == before.dirs[dir][n])
    && after.dirs[dir][filename].Regular? && after.dirs[dir][filename].inode !in before.files
    && after.files == before.files[after.dirs[dir][filename].inode := content]
  }

  ghost predicate Succeeds(disk: Disk, target: Target, temporary: string, f: Faults) {
    && NoOpenFault(target, f) && !f.create && !f.write && !f.sync && !f.replace
    && Walk(disk, target.root, target.parts).Some?
    && var entries := disk.dirs[Walk(disk, target.root, target.parts).value];
    temporary !in entries && !(target.filename in entries && entries[target.filename].Directory?)
  }

  /** The disk with `text` in a new file at one more name. */
  function Added(disk: Disk, dir: nat, name: string, inode: nat, text: string): Disk
    requires dir in disk.dirs
  {
    Link(Store(disk, inode, text), dir, name, Regular(inode))
  }

  lemma StagedIsSafe(
    before: Disk, dir: nat, filename: string, temporary: string, inode: nat, text: string, content: string)
    requires dir in before.dirs && inode !in before.files && filename != temporary
    ensures SafeState(before, Added(before, dir, temporary, inode, text), dir, filename, temporary, content)
  {
  }

  lemma StoreAgain(disk: Disk, dir: nat, name: string, inode: nat, text: string, more: string)
    requires dir in disk.dirs
    ensures Store(Added(disk, dir, name, inode, text), inode, more) == Added(disk, dir, name, inode, more)
  {
  }

  /** Removing the temporary restores every name; renaming it leaves the new file at the destination. */
  lemma TemporaryLeaves(before: Disk, dir: nat, filename: string, temporary: string, inode: nat, text: string)
    requires dir in before.dirs && temporary !in before.dirs[dir] && filename != temporary
    ensures var staged := Added(before, dir, temporary, inode, text);
            && Unlink(staged, dir, temporary) == Store(before, inode, text)
            && Unlink(Link(staged, dir, filename, Regular(inode)), dir, temporary)
               == Added(before, dir, filename, inode, text)
  {
    var staged := Added(before, dir, temporary, inode, text);
    assert staged.dirs[dir] - {temporary} == before.dirs[dir];
    assert Unlink(staged, dir, temporary).dirs == before.dirs;
    var entries := before.dirs[dir][filename := Regular(inode)];
    assert Link(staged, dir, filename, Regular(inode)).dirs[dir] - {temporary} == entries;
  }

  /** The write succeeds exactly when nothing fails, the parent is a chain of real directories, the
      temporary name is free and the destination is no directory.  Then the destination is a new
      file with the complete text; otherwise every name is as before.  No descriptor stays open,
      and in every state in between the destination is old or complete. */
  method WriteTextSafely(fs: FileSystem, target: Target, content: string, temporary: string, f: Faults)
    returns (ok: bool)
    requires fs.Valid() && ValidTarget(target) && IsTemporary(temporary)
    modifies fs
    ensures fs.Valid() && fs.open == old(fs.open)
    ensures ok <==> Succeeds(old(fs.disk), target, temporary, f)
    ensures ok ==> var dir := Walk(old(fs.disk), target.root, target.parts).value;
                   && old(fs.nextInode) !in old(fs.disk).files
                   && fs.disk == Added(old(fs.disk), dir, target.filename, old(fs.nextInode), content)
    ensures ok ==> exists dir ::
                     LeadsTo(old(fs.disk), target, dir)
                       && OnlyWrote(old(fs.disk), fs.disk, dir, target.filename, content)
    ensures (forall dir :: !LeadsTo(old(fs.disk), target, dir)) ==> !ok && fs.disk == old(fs.disk)
    ensures !ok ==> fs.disk.dirs == old(fs.disk).dirs
    ensures !ok ==>
              forall i | i in old(fs.disk).files :: i in fs.disk.files && fs.disk.files[i] == old(fs.disk).files[i]
    ensures |old(fs.history)| <= |fs.history| && fs.history[..|old(fs.history)|] == old(fs.history)
    ensures if Walk(old(fs.disk), target.root, target.parts).None? then fs.history == old(fs.history)
            else SafeHistory(old(fs.disk), fs.history[|old(fs.history)|..],
                             Walk(old(fs.disk), target.root, target.parts).value, target.filename, temporary, content)
  {
    ghost var before, inode := fs.disk, fs.nextInode;
    var parent := OpenValidatedParent(fs, target, f);
    if parent.None? {
      return false;
    }
    var dir := fs.open[parent.value].dir;
    ok := ReplaceThroughDirectory(fs, dir, target.filename, content, temporary, f);
    fs.Close(parent.value);
    WalkExactly(before, target.root, target.parts, dir);
    assert LeadsTo(before, target, dir);
    if ok { AddedOnly(before, dir, target.filename, inode, content); }
  }

  lemma AddedOnly(before: Disk, dir: nat, filename: string, inode: nat, content: string)
    requires dir in before.dirs && inode !in before.files
    ensures OnlyWrote(before, Added(before, dir, filename, inode, content), dir, filename, content)
  {
  }

  function Partial(content: string, f: Faults): string {
    content[..if f.written < |content| then f.written else |content|]
  }

  /** What the staged file holds when staging ends, and the states on the way there. */
  function StagedText(content: string, f: Faults): string {
    if f.write then Partial(content, f) else content
  }

  function StagingStates(before: Disk, dir: nat, temporary: string, inode: nat, content: string, f: Faults): seq<Disk>
    requires dir in before.dirs
  {
    [Added(before, dir, temporary, inode, ""), Added(before, dir, temporary, inode, Partial(content, f))]
    + (if f.write then [] else [Added(before, dir, temporary, inode, content)])
  }

  /** Creates the temporary, writes, syncs and closes it. */
  method StageTemporary(fs: FileSystem, dir: nat, content: string, temporary: string, f: Faults)
    returns (created: bool, ok: bool)
    requires fs.Valid() && dir in fs.disk.dirs
    modifies fs
    ensures fs.Valid() && fs.open == old(fs.open) && old(fs.nextInode) !in old(fs.disk).files
    ensures created <==> !f.create && temporary !in old(fs.disk).dirs[dir]
    ensures ok <==> created && !f.write && !f.sync
    ensures !created ==> fs.disk == old(fs.disk) && fs.history == old(fs.history)
    ensures created ==>
              && fs.disk == Added(old(fs.disk), dir, temporary, old(fs.nextInode), StagedText(content, f))
              && fs.history == old(fs.history)
                               + StagingStates(old(fs.disk), dir, temporary, old(fs.nextInode), content, f)
  {
    ghost var before := fs.disk;
    var inode := fs.nextInode;
    var file := fs.CreateExclusive(dir, temporary, f.create);
    if file.None? {
      return false, false;
    }
    StoreAgain(before, dir, temporary, inode, "", Partial(content, f));
    StoreAgain(before, dir, temporary, inode, "", content);
    ok := fs.Write(inode, content, f.written, f.write);
    ok := ok && !f.sync;
    fs.Close(file.value);
    created := true;
    assert fs.open == old(fs.open);
  }

  /** The states an observer may have seen are safe. */
  ghost predicate SafeHistory(
    before: Disk, states: seq<Disk>, dir: nat, filename: string, temporary: string, content: string)
  {
    forall k | 0 <= k < |states| :: SafeState(before, states[k], dir, filename, temporary, content)
  }

  lemma StagingIsSafe(
    before: Disk, dir: nat, filename: string, temporary: string, inode: nat, content: string, f: Faults)
    requires dir in before.dirs && inode !in before.files && filename != temporary
    ensures SafeHistory(before, StagingStates(before, dir, temporary, inode, content, f),
                        dir, filename, temporary, content)
  {
    StagedIsSafe(before, dir, filename, temporary, inode, "", content);
    StagedIsSafe(before, dir, filename, temporary, inode, Partial(content, f), content);
    StagedIsSafe(before, dir, filename, temporary, inode, content, content);
  }

  /** Renames a completely staged temporary over the destination; removes it if that is not done. */
  method PublishOrRemove(fs: FileSystem, dir: nat, filename: string, temporary: string, staged: bool, fail: bool)
    returns (ok: bool)
    requires fs.Valid() && dir in fs.disk.dirs && temporary in fs.disk.dirs[dir] && filename != temporary
    modifies fs`disk, fs`history
    ensures fs.Valid() && fs.history == old(fs.history) + [fs.disk]
    ensures ok <==> && staged && !fail
                    && !(filename in old(fs.disk).dirs[dir] && old(fs.disk).dirs[dir][filename].Directory?)
    ensures fs.disk
            == if ok then Unlink(Link(old(fs.disk), dir, filename, old(fs.disk).dirs[dir][temporary]), dir, temporary)
               else Unlink(old(fs.disk), dir, temporary)
  {
    var temporaryCreated := true;
    ok := staged;
    if ok {
      ok := fs.Replace(dir, temporary, filename, fail);
      temporaryCreated := !ok;
    }
    if temporaryCreated {
      fs.Remove(dir, temporary);
    }
  }

  lemma SafeHistoryAppend(
    before: Disk, states: seq<Disk>, last: Disk, dir: nat, filename: string, temporary: string, content: string)
    requires SafeHistory(before, states, dir, filename, temporary, content)
    requires SafeState(before, last, dir, filename, temporary, content)
    ensures SafeHistory(before, states + [last], dir, filename, temporary, content)
  {
  }

  lemma HistoryTail(history: seq<Disk>, states: seq<Disk>, last: Disk)
    ensures var longer := history + states + [last];
            longer[..|history|] == history && longer[|history|..] == states + [last]
  {
  }

  /** Either end of the protocol is a safe state. */
  lemma OutcomeIsSafe(
    before: Disk, after: Disk, dir: nat, filename: string, temporary: string, inode: nat, text: string,
    content: string, ok: bool)
    requires dir in before.dirs && inode !in before.files && filename != temporary
    requires ok ==> text == content
    requires after == if ok then Added(before, dir, filename, inode, text) else Store(before, inode, text)
    ensures SafeState(before, after, dir, filename, temporary, content)
  {
  }

  /** The part between opening and closing the parent directory. */
  method ReplaceThroughDirectory(
    fs: FileSystem, dir: nat, filename: string, content: string, temporary: string, f: Faults)
    returns (ok: bool)
    requires fs.Valid() && dir in fs.disk.dirs && filename != temporary
    modifies fs
    ensures fs.Valid() && fs.open == old(fs.open)
    ensures ok <==> && !f.create && !f.write && !f.sync && !f.replace && temporary !in old(fs.disk).dirs[dir]
                    && !(filename in old(fs.disk).dirs[dir] && old(fs.disk).dirs[dir][filename].Directory?)
    ensures ok ==> && old(fs.nextInode) !in old(fs.disk).files
                   && fs.disk == Added(old(fs.disk), dir, filename, old(fs.nextInode), content)
    ensures !ok ==> fs.disk.dirs == old(fs.disk).dirs
    ensures !ok ==>
              forall i | i in old(fs.disk).files :: i in fs.disk.files && fs.disk.files[i] == old(fs.disk).files[i]
    ensures |old(fs.history)| <= |fs.history| && fs.history[..|old(fs.history)|] == old(fs.history)
    ensures SafeHistory(old(fs.disk), fs.history[|old(fs.history)|..], dir, filename, temporary, content)
  {
    ghost var before, inode, text := fs.disk, fs.nextInode, StagedText(content, f);
    var created;
    created, ok := StageTemporary(fs, dir, content, temporary, f);
    if !created {
      return;
    }
    ghost var states := StagingStates(before, dir, temporary, inode, content, f);
    StagingIsSafe(before, dir, filename, temporary, inode, content, f);
    TemporaryLeaves(before, dir, filename, temporary, inode, text);
    ok := PublishOrRemove(fs, dir, filename, temporary, ok, f.replace);
    OutcomeIsSafe(before, fs.disk, dir, filename, temporary, inode, text, content, ok);
    SafeHistoryAppend(before, states, fs.disk, dir, filename, temporary, content);
    HistoryTail(old(fs.history), states, fs.disk);
  }
}
