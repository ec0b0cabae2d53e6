/**
 Atomic writes and exact-string edits of a file, over every point of failure.  The disk keeps
 a history of all its states, one per system call and one per byte written, so a property of
 the history is a property of every moment at which the process could die.
*/
module AtomicEdit {
  import opened Common
  import opened Replacement

  type Path = string
  type Files = map<Path, Bytes>

  const MAX_WRITE_BYTES: nat := 4 * 1024 * 1024

  /** Which system call fails; a failing write stops after some bytes. */
  datatype Faults = Faults(create: bool, chmod: bool, write: Option<nat>, sync: bool, close: bool, rename: bool,
                           remove: bool)

  /** Whether these faults keep `data` from being written and renamed into place. */
  predicate Fails(faults: Faults, data: Bytes) {
    || faults.create || faults.chmod || (faults.write.Some? && faults.write.value < |data|)
    || faults.sync || faults.close || faults.rename
  }

  datatype Error = EmptyOldString | BadCount | PathRefused | BadEncoding | ParentRefused | LstatFailed | ReadFailed
                 | IsLink | IsDirectory | TooLarge | NotText | CountMismatch(found: nat) | WriteFailed

  function Get(files: Files, p: Path): Option<Bytes> {
    if p in files then Some(files[p]) else None
  }

  class Disk {
    var files: Files
    ghost var history: seq<Files>

    constructor (files: Files)
      ensures this.files == files && history == []
    {
      this.files, history := files, [];
    }

    method Put(p: Path, data: Bytes)
      modifies this
      ensures files == old(files)[p := data] && history == old(history) + [files]
    {
      files := files[p := data];
      history := history + [files];
    }

    method Rename(from: Path, to: Path)
      requires from in files
      modifies this
      ensures files == (old(files) - {from})[to := old(files)[from]] && history == old(history) + [files]
    {
      files := (files - {from})[to := files[from]];
      history := history + [files];
    }

    method Remove(p: Path)
      modifies this
      ensures files == old(files) - {p} && history == old(history) + [files]
    {
      files := files - {p};
      history := history + [files];
    }
  }

  /** In state `h` everything but the temporary file is as in `start`. */
  predicate OnlyTemp(h: Files, start: Files, tmp: Path) {
    h - {tmp} == start
  }

  /** All states from position `from` on differ from `start` in the temporary file at most. */
  ghost predicate QuietSince(history: seq<Files>, from: nat, start: Files, tmp: Path) {
    forall k :: from <= k < |history| ==> OnlyTemp(history[k], start, tmp)
  }

  /** The write loop; a fault leaves a prefix of the data in the temporary file. */
  method WriteTemp(disk: Disk, tmp: Path, data: Bytes, fault: Option<nat>, ghost start: Files, ghost from: nat)
    returns (ok: bool)
    requires from <= |disk.history| && QuietSince(disk.history, from, start, tmp)
    requires tmp in disk.files && disk.files[tmp] == [] && OnlyTemp(disk.files, start, tmp)
    modifies disk
    ensures from <= |disk.history| && QuietSince(disk.history, from, start, tmp)
    ensures tmp in disk.files && OnlyTemp(disk.files, start, tmp)
    ensures old(disk.history) <= disk.history
    ensures ok ==> disk.files[tmp] == data
    ensures ok == (fault.None? || fault.value >= |data|)
  {
    var n := 0;
    while n < |data|
      invariant n <= |data| && tmp in disk.files && disk.files[tmp] == data[..n] && OnlyTemp(disk.files, start, tmp)
      invariant from <= |disk.history| && QuietSince(disk.history, from, start, tmp)
                && old(disk.history) <= disk.history
      invariant fault.Some? ==> n <= fault.value
    {
      if fault == Some(n) { return false; }
      disk.Put(tmp, disk.files[tmp] + [data[n]]);
      n := n + 1;
      assert data[..n] == data[..n - 1] + [data[n - 1]];
    }
    return true;
  }

  /** Everything between creating the temporary file and the deferred clean-up. */
  method FillAndRename(disk: Disk, path: Path, tmp: Path, data: Bytes, faults: Faults, ghost start: Files,
                       ghost from: nat)
    returns (ok: bool)
    requires tmp !in start && tmp != path
    requires from <= |disk.history| && QuietSince(disk.history, from, start, tmp)
    requires tmp in disk.files && disk.files[tmp] == [] && OnlyTemp(disk.files, start, tmp)
    modifies disk
    ensures from <= |disk.history| && old(disk.history) <= disk.history
    ensures ok ==> disk.files == start[path := data] && |disk.history| > from
                   && QuietSince(disk.history[..|disk.history| - 1], from, start, tmp)
                   && disk.history[|disk.history| - 1] == disk.files
    ensures !ok ==> OnlyTemp(disk.files, start, tmp) && QuietSince(disk.history, from, start, tmp)
    ensures ok == !Fails(faults.(create := false), data)
  {
    ok := false;
    if faults.chmod { return; }
    var written := WriteTemp(disk, tmp, data, faults.write, start, from);
    if !written { return; }
    if faults.sync { return; }
    if faults.close { return; }
    if faults.rename { return; }
    ghost var before := disk.history;
    disk.Rename(tmp, path);
    assert disk.history[..|disk.history| - 1] == before;
    ok := true;
  }

  /** In every state since `from` the file is whole: its old content, or the new one. */
  ghost predicate WholeSince(history: seq<Files>, from: nat, start: Files, path: Path, data: Bytes) {
    forall k :: from <= k < |history| ==>
      Get(history[k], path) == Get(start, path) || Get(history[k], path) == Some(data)
  }

  /** And no other file is ever touched, the temporary one aside. */
  ghost predicate OthersSince(history: seq<Files>, from: nat, start: Files, path: Path, tmp: Path) {
    forall k :: from <= k < |history| ==> history[k] - {path, tmp} == start - {path, tmp}
  }

  lemma QuietIsWhole(history: seq<Files>, from: nat, start: Files, path: Path, tmp: Path, data: Bytes)
    requires tmp !in start && tmp != path && QuietSince(history, from, start, tmp)
    ensures WholeSince(history, from, start, path, data) && OthersSince(history, from, start, path, tmp)
  {
    forall k | from <= k < |history|
      ensures Get(history[k], path) == Get(start, path) && history[k] - {path, tmp} == start - {path, tmp}
    {
      assert OnlyTemp(history[k], start, tmp);
      assert path in history[k] <==> path in history[k] - {tmp};
      assert history[k] - {path, tmp} == (history[k] - {tmp}) - {path, tmp};
    }
  }

  /**
   `atomicWrite`: at every step the target holds its whole old or its whole new bytes; an
   error leaves the disk as it was (the temporary file aside when even removing it fails);
   success leaves exactly the new bytes and no temporary file.
   */
  method AtomicWrite(disk: Disk, path: Path, tmp: Path, data: Bytes, faults: Faults) returns (ok: bool)
    requires tmp !in disk.files && tmp != path
    modifies disk
    ensures old(disk.history) <= disk.history
    ensures WholeSince(disk.history, |old(disk.history)|, old(disk.files), path, data)
    ensures OthersSince(disk.history, |old(disk.history)|, old(disk.files), path, tmp)
    ensures ok ==> disk.files == old(disk.files)[path := data]
    ensures !ok ==> disk.files - {tmp} == old(disk.files) && (!faults.remove ==> disk.files == old(disk.files))
    ensures ok == !Fails(faults, data)
  {
    ghost var start, from := disk.files, |disk.history|;
    if faults.create {
      assert start - {tmp} == start;
      return false;
    }
    disk.Put(tmp, []);
    assert OnlyTemp(disk.files, start, tmp);
    ok := FillAndRename(disk, path, tmp, data, faults, start, from);
    if ok {
      ghost var n := |disk.history| - 1;
      QuietIsWhole(disk.history[..n], from, start, path, tmp, data);
      assert disk.history == disk.history[..n] + [disk.files];
    } else {
      if !faults.remove { disk.Remove(tmp); }
      assert start - {tmp} == start;
      QuietIsWhole(disk.history, from, start, path, tmp, data);
    }
  }

  /** What `lstat` finds at a resolved path; a special file is a device, a pipe or a socket. */
  datatype Kind = Nothing | Symlink | Directory | Regular | Special

  /**
   What `editBlock` learns of its target: whether the path policy resolves it, what `lstat`
   says (nothing when it fails) and what reading it gives (nothing when that fails).
   */
  datatype Target = Target(resolved: bool, lstat: Option<Kind>, size: nat, content: Option<Bytes>)

  /** The target is described as it is on the disk; of a special file anything may be read. */
  ghost predicate Describes(t: Target, files: Files, path: Path) {
    t.resolved && t.lstat.Some? ==>
      && (t.lstat == Some(Regular) <==> path in files)
      && (path in files ==> t.size == |files[path]| && (t.content.Some? ==> t.content.value == files[path]))
  }

  datatype Edit = Edit(replacements: nat, bytesWritten: nat)

  /** The count a request asks for; zero means one. */
  function Expected(n: int): int {
    if n == 0 then 1 else n
  }

  /** Every reason to refuse an edit, in the order they are looked at. */
  function EditError(t: Target, utf8: Bytes -> bool, oldText: Bytes, newText: Bytes, expected: int): (r: Option<Error>)
    ensures r.None? ==> t.content.Some? && t.resolved && t.lstat.Some?
  {
    if oldText == [] then Some(EmptyOldString)
    else if Expected(expected) < 1 || Expected(expected) > 1000 then Some(BadCount)
    else if !t.resolved then Some(PathRefused)
    else if t.lstat.None? || t.lstat.value.Nothing? then Some(LstatFailed)
    else if t.lstat.value.Symlink? then Some(IsLink)
    else if t.lstat.value.Directory? then Some(IsDirectory)
    else if t.size > MAX_WRITE_BYTES then Some(TooLarge)
    else if t.content.None? then Some(ReadFailed)
    else if !utf8(t.content.value) then Some(NotText)
    else if Occurrences(t.content.value, oldText) != Expected(expected) then
      Some(CountMismatch(Occurrences(t.content.value, oldText)))
    else if |Replaced(t.content.value, oldText, newText)| > MAX_WRITE_BYTES then Some(TooLarge)
    else None
  }

  /** `editBlock`, `utf8` standing for the validity test. */
  method EditBlock(disk: Disk, path: Path, target: Target, utf8: Bytes -> bool, oldText: Bytes, newText: Bytes,
                   expected: int, tmp: Path, faults: Faults)
    returns (r: Result<Edit, Error>)
    requires Describes(target, disk.files, path)
    requires tmp !in disk.files && tmp != path
    modifies disk
    ensures old(disk.history) <= disk.history
    ensures var refused := EditError(target, utf8, oldText, newText, expected);
            && (refused.Some? ==>
                  r == Err(refused.value) && disk.files == old(disk.files) && disk.history == old(disk.history))
            && (refused.None? ==>
                  var edited := Replaced(target.content.value, oldText, newText);
                  && WholeSince(disk.history, |old(disk.history)|, old(disk.files), path, edited)
                  && OthersSince(disk.history, |old(disk.history)|, old(disk.files), path, tmp)
                  && (r.Err? ==>
                        disk.files - {tmp} == old(disk.files) && (!faults.remove ==> disk.files == old(disk.files)))
                  && (r.Ok? ==> disk.files == old(disk.files)[path := edited])
                  && r.Ok? == !Fails(faults, edited))
    ensures r.Ok? ==>
              && oldText != [] && target.content.Some?
              && r.value.replacements == Occurrences(target.content.value, oldText) == Expected(expected)
              && r.value.bytesWritten == |disk.files[path]|
                 == |target.content.value| + r.value.replacements * (|newText| - |oldText|)
              && r.value.bytesWritten <= MAX_WRITE_BYTES
  {
    if oldText == [] { return Err(EmptyOldString); }
    var wanted := expected;
    if wanted == 0 { wanted := 1; }
    if wanted < 1 || wanted > 1000 { return Err(BadCount); }
    if !target.resolved { return Err(PathRefused); }
    if target.lstat.None? || target.lstat.value.Nothing? { return Err(LstatFailed); }
    if target.lstat.value.Symlink? { return Err(IsLink); }
    if target.lstat.value.Directory? { return Err(IsDirectory); }
    if target.size > MAX_WRITE_BYTES { return Err(TooLarge); }
    if target.content.None? { return Err(ReadFailed); }
    var data := target.content.value;
    if !utf8(data) { return Err(NotText); }
    var count, newData := ReplaceAll(data, oldText, newText);
    if count != wanted { return Err(CountMismatch(count)); }
    if |newData| > MAX_WRITE_BYTES { return Err(TooLarge); }
    ReplacedLength(data, oldText, newText);
    var written := AtomicWrite(disk, path, tmp, newData, faults);
    if !written { return Err(WriteFailed); }
    return Ok(Edit(count, |newData|));
  }

  /**
   What `writeFile` learns of its target: whether the path and then its parent resolve, the
   decoded content (nothing when the encoding is unknown or broken) and what `lstat` says.
   */
  datatype Request = Request(resolved: bool, content: Option<Bytes>, parentResolved: bool, lstat: Option<Kind>)

  /** Every reason to refuse a write, in the order they are looked at. */
  function WriteError(q: Request): (r: Option<Error>)
    ensures r.None? ==> q.content.Some?
  {
    if !q.resolved then Some(PathRefused)
    else if q.content.None? then Some(BadEncoding)
    else if |q.content.value| > MAX_WRITE_BYTES then Some(TooLarge)
    else if !q.parentResolved then Some(ParentRefused)
    else if q.lstat == Some(Symlink) then Some(IsLink)
    else if q.lstat.None? then Some(LstatFailed)
    else None
  }

  /** `writeFile`: bounded data, never over a symbolic link, and a directory is never replaced. */
  method WriteFile(disk: Disk, path: Path, request: Request, tmp: Path, faults: Faults) returns (r: Result<nat, Error>)
    requires tmp !in disk.files && tmp != path
    modifies disk
    ensures old(disk.history) <= disk.history
    ensures var refused := WriteError(request);
            && (refused.Some? ==>
                  r == Err(refused.value) && disk.files == old(disk.files) && disk.history == old(disk.history))
            && (refused.None? ==>
                  var data := request.content.value;
                  && WholeSince(disk.history, |old(disk.history)|, old(disk.files), path, data)
                  && OthersSince(disk.history, |old(disk.history)|, old(disk.files), path, tmp)
                  && (r.Ok? ==> disk.files == old(disk.files)[path := data] && r.value == |data| <= MAX_WRITE_BYTES)
                  && (r.Err? ==>
                        disk.files - {tmp} == old(disk.files) && (!faults.remove ==> disk.files == old(disk.files)))
                  && (r.Ok? <==> !Fails(faults, data) && request.lstat != Some(Directory)))
  {
    if !request.resolved { return Err(PathRefused); }
    if request.content.None? { return Err(BadEncoding); }
    var data := request.content.value;
    if |data| > MAX_WRITE_BYTES { return Err(TooLarge); }
    if !request.parentResolved { return Err(ParentRefused); }
    if request.lstat == Some(Symlink) { return Err(IsLink); }
    if request.lstat.None? { return Err(LstatFailed); }
    // Renaming a file over a directory fails.
    var occurring := if request.lstat == Some(Directory) then faults.(rename := true) else faults;
    var ok := AtomicWrite(disk, path, tmp, data, occurring);
    if !ok { return Err(WriteFailed); }
    return Ok(|data|);
  }

  // ---------------------------------------------------------------- which refusal is given

  /** What an edit asks for: a text to replace, and so many replacements, none meaning one. */
  predicate Sensible(oldText: Bytes, expected: int) {
    oldText != [] && 0 <= expected <= 1000
  }

  /** Every refusal of an edit has its condition, and none of them holding there is no refusal. */
  lemma EditRefusals(t: Target, utf8: Bytes -> bool, oldText: Bytes, newText: Bytes, expected: int)
    ensures var refused := EditError(t, utf8, oldText, newText, expected);
            var wanted := if expected == 0 then 1 else expected;
            var there := Sensible(oldText, expected) && t.resolved && t.lstat.Some? && t.lstat != Some(Nothing);
            && (refused == Some(EmptyOldString) <==> oldText == [])
            && (refused == Some(BadCount) <==> oldText != [] && !Sensible(oldText, expected))
            && (refused == Some(PathRefused) <==> Sensible(oldText, expected) && !t.resolved)
            && (refused == Some(LstatFailed) <==>
                  Sensible(oldText, expected) && t.resolved && (t.lstat.None? || t.lstat == Some(Nothing)))
            && (refused == Some(IsLink) <==> there && t.lstat == Some(Symlink))
            && (refused == Some(IsDirectory) <==> there && t.lstat == Some(Directory))
            && (refused == Some(TooLarge) <==>
                  || (there && IsFile(t) && t.size > 4194304)
                  || (Readable(t, there) && utf8(t.content.value) && Occurrences(t.content.value, oldText) == wanted
                      && |Replaced(t.content.value, oldText, newText)| > 4194304))
            && (refused == Some(ReadFailed) <==> there && IsFile(t) && t.size <= 4194304 && t.content.None?)
            && (refused == Some(NotText) <==> Readable(t, there) && !utf8(t.content.value))
            && (refused.None? <==>
                  && Readable(t, there) && utf8(t.content.value) && Occurrences(t.content.value, oldText) == wanted
                  && |Replaced(t.content.value, oldText, newText)| <= 4194304)
            && (refused.Some? && refused.value.CountMismatch? <==>
                  Readable(t, there) && utf8(t.content.value) && Occurrences(t.content.value, oldText) != wanted)
            && (refused.Some? && refused.value.CountMismatch? ==>
                  refused.value.found == Occurrences(t.content.value, oldText))
  {
  }

  predicate IsFile(t: Target) { t.lstat == Some(Regular) || t.lstat == Some(Special) }

  predicate Readable(t: Target, there: bool) { there && IsFile(t) && t.size <= 4194304 && t.content.Some? }

  /** Every refusal of a write has its condition. */
  lemma WriteRefusals(q: Request)
    ensures var refused := WriteError(q);
            && (refused == Some(PathRefused) <==> !q.resolved)
            && (refused == Some(BadEncoding) <==> q.resolved && q.content.None?)
            && (refused == Some(TooLarge) <==> q.resolved && q.content.Some? && |q.content.value| > 4194304)
            && (refused == Some(ParentRefused) <==> Acceptable(q) && !q.parentResolved)
            && (refused == Some(IsLink) <==> Acceptable(q) && q.parentResolved && q.lstat == Some(Symlink))
            && (refused == Some(LstatFailed) <==> Acceptable(q) && q.parentResolved && q.lstat.None?)
            && (refused.None? <==> Acceptable(q) && q.parentResolved && q.lstat.Some? && q.lstat != Some(Symlink))
  {
  }

  predicate Acceptable(q: Request) { q.resolved && q.content.Some? && |q.content.value| <= 4194304 }
}
