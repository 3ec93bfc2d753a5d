/**
 * The part of the file system the package service touches: regular files
 * addressed by path (the package files) and directories addressed by path, each
 * holding the files below it by relative path. The `fs.promises` calls the
 * service makes are pure transitions on the directory map, wrapped by the
 * methods of `Disk`.
 */
module DrkDisk {
  import opened Wrappers
  import opened Bytes
  import Js

  /** The files below one directory, by path relative to it. */
  type Tree = map<string, Bytes>

  /** `ENOENT`, `ENOTEMPTY`, and a file met where a directory is needed or the reverse. */
  datatype FsError = NotFound(path: string) | NotEmpty(path: string) | Clash(path: string)

  /**
   * A file at `p` cannot be added to `t`: a file of `t` stands where one of
   * `p`'s directories would be, or `p` is a directory of `t`.
   */
  predicate Blocked(t: Tree, p: string) {
    exists q :: q in t && (Js.Under(p, q) || Js.Under(q, p))
  }

  /** Some file of `src` cannot be merged into `dst`. */
  predicate Clashes(dst: Tree, src: Tree) {
    exists p :: p in src && Blocked(dst, p)
  }

  /** Two changes of one directory, one after the other, are one change of it. */
  lemma UpdateTwice(d0: map<string, Tree>, d1: map<string, Tree>, d2: map<string, Tree>, k: string)
    requires k in d1 && d1 == d0[k := d1[k]]
    requires k in d2 && d2 == d1[k := d2[k]]
    ensures d2 == d0[k := d2[k]]
  {
  }

  /**
   * `fs.promises.cp(src, dst, { recursive: true })`: merges `src` into `dst`
   * (created when absent), files of `src` winning; refused when a file of one
   * meets a directory of the other.
   */
  function CopyDir(dirs: map<string, Tree>, src: string, dst: string): (r: Result<map<string, Tree>, FsError>)
    ensures r.Err? <==> src !in dirs || (dst in dirs && Clashes(dirs[dst], dirs[src]))
    ensures r.Ok? ==> r.value.Keys == dirs.Keys + {dst}
    ensures r.Ok? ==> forall d :: d in dirs && d != dst ==> r.value[d] == dirs[d]
    ensures r.Ok? ==> forall p :: p in dirs[src] ==> p in r.value[dst] && r.value[dst][p] == dirs[src][p]
    ensures r.Ok? && dst in dirs ==> forall p :: p in dirs[dst] && p !in dirs[src] ==> p in r.value[dst] && r.value[dst][p] == dirs[dst][p]
  {
    if src !in dirs then Err(NotFound(src))
    else if dst in dirs && Clashes(dirs[dst], dirs[src]) then Err(Clash(dst))
    else Ok(dirs[dst := (if dst in dirs then dirs[dst] else map[]) + dirs[src]])
  }

  /** The files of `src` that `cp` reached before a clash and could write into `dst`. */
  function CopiedBefore(dst: Tree, src: Tree, reached: set<string>): (r: Tree)
    ensures forall p :: p in r <==> p in src && p in reached && !Blocked(dst, p)
    ensures forall p :: p in r ==> r[p] == src[p]
    ensures reached == {} ==> r == map[]
  {
    map p | p in src && p in reached && !Blocked(dst, p) :: src[p]
  }

  /**
   * The directories a `cp` that threw leaves behind. Node copies entry by
   * entry and throws at the first file that meets a directory or the
   * reverse; the files it wrote before that stay written. `reached` is the
   * set of files of `src` the walk came to before the clash (it depends on
   * the `readdir` order, which the model does not fix); of those, the ones
   * not blocked in `dst` were copied.
   */
  function CopyAborted(dirs: map<string, Tree>, src: string, dst: string, reached: set<string>): (r: map<string, Tree>)
    requires CopyDir(dirs, src, dst).Err?
    ensures r.Keys == dirs.Keys
    ensures forall d :: d in dirs && d != dst ==> r[d] == dirs[d]
    ensures src !in dirs || reached == {} ==> r == dirs
  {
    if src !in dirs then dirs
    else if reached == {} then
      assert dirs[dst] + CopiedBefore(dirs[dst], dirs[src], reached) == dirs[dst];
      dirs
    else dirs[dst := dirs[dst] + CopiedBefore(dirs[dst], dirs[src], reached)]
  }

  /**
   * What an aborted `cp` leaves in the destination: every reached file of the
   * source that was not blocked, with the source's bytes; every other file
   * of the destination as it was; nothing else; and nothing where a file
   * met a directory.
   */
  lemma CopyAbortedFiles(dirs: map<string, Tree>, src: string, dst: string, reached: set<string>)
    requires CopyDir(dirs, src, dst).Err? && src in dirs
    ensures var r := CopyAborted(dirs, src, dst, reached);
            forall p :: p in dirs[src] && p in reached && !Blocked(dirs[dst], p) ==> p in r[dst] && r[dst][p] == dirs[src][p]
    ensures var r := CopyAborted(dirs, src, dst, reached);
            forall p :: p in dirs[dst] && !(p in dirs[src] && p in reached) ==> p in r[dst] && r[dst][p] == dirs[dst][p]
    ensures var r := CopyAborted(dirs, src, dst, reached);
            forall p :: p in r[dst] ==> p in dirs[dst] || (p in dirs[src] && p in reached)
    ensures var r := CopyAborted(dirs, src, dst, reached);
            forall p :: p in r[dst] && Blocked(dirs[dst], p) ==> p in dirs[dst] && r[dst][p] == dirs[dst][p]
  {
  }

  /** `fs.promises.rename(src, dst)` on a directory: refused when `src` is missing or `dst` is a non-empty directory. */
  function RenameDir(dirs: map<string, Tree>, src: string, dst: string): (r: Result<map<string, Tree>, FsError>)
    ensures r.Err? <==> src !in dirs || (src != dst && dst in dirs && dirs[dst] != map[])
    ensures r.Ok? && src != dst ==> r.value.Keys == dirs.Keys - {src} + {dst} && r.value[dst] == dirs[src]
    ensures r.Ok? ==> forall d :: d in dirs && d != src && d != dst ==> d in r.value && r.value[d] == dirs[d]
  {
    if src !in dirs then Err(NotFound(src))
    else if src == dst then Ok(dirs)
    else if dst in dirs && dirs[dst] != map[] then Err(NotEmpty(dst))
    else Ok((dirs - {src})[dst := dirs[src]])
  }

  /** `fs.promises.rm(d, { recursive: true })`: refused when `d` does not exist. */
  function RemoveDir(dirs: map<string, Tree>, d: string): (r: Result<map<string, Tree>, FsError>)
    ensures r.Err? <==> d !in dirs
    ensures r.Ok? ==> r.value.Keys == dirs.Keys - {d}
    ensures r.Ok? ==> forall e :: e in r.value ==> r.value[e] == dirs[e]
  {
    if d !in dirs then Err(NotFound(d)) else Ok(dirs - {d})
  }

  /** `fs.promises.mkdir(d, { recursive: true })`: an existing directory is left as it is. */
  function MakeDir(dirs: map<string, Tree>, d: string): (r: map<string, Tree>)
    ensures r.Keys == dirs.Keys + {d}
    ensures d in dirs ==> r == dirs
    ensures d !in dirs ==> r[d] == map[]
  {
    if d in dirs then dirs else dirs[d := map[]]
  }

  /** The file system, with the directory operations as state changes. */
  class Disk {
    var files: map<string, Bytes>
    var dirs: map<string, Tree>

    constructor (files0: map<string, Bytes>, dirs0: map<string, Tree>)
      ensures files == files0 && dirs == dirs0
    {
      files := files0;
      dirs := dirs0;
    }

    /** `fs.existsSync(d)` for a directory. */
    predicate DirExists(d: string)
      reads this
    {
      d in dirs
    }

    /** `fs.promises.readFile(p)`; None when it rejects. */
    method ReadFile(p: string) returns (r: Option<Bytes>)
      ensures r.Some? <==> p in files
      ensures r.Some? ==> r.value == files[p]
    {
      if p in files {
        r := Some(files[p]);
      } else {
        r := None;
      }
    }

    /** `fs.promises.writeFile(p, data)` */
    method WriteFile(p: string, data: Bytes)
      modifies this
      ensures files == old(files)[p := data]
      ensures dirs == old(dirs)
    {
      files := files[p := data];
    }

    /** `fs.promises.writeFile(path.join(d, p), data)` into an existing directory. */
    method WriteInto(d: string, p: string, data: Bytes)
      requires d in dirs
      modifies this
      ensures dirs == old(dirs)[d := old(dirs)[d][p := data]]
      ensures files == old(files)
    {
      dirs := dirs[d := dirs[d][p := data]];
    }

    /** `fs.promises.cp(src, dst, { recursive: true })`, with `reached` as in `CopyAborted`. */
    method Copy(src: string, dst: string, reached: set<string>) returns (r: Outcome<FsError>)
      modifies this
      ensures CopyDir(old(dirs), src, dst).Ok? ==> r == Pass && dirs == CopyDir(old(dirs), src, dst).value
      ensures CopyDir(old(dirs), src, dst).Err? ==>
                r == Fail(CopyDir(old(dirs), src, dst).error) && dirs == CopyAborted(old(dirs), src, dst, reached)
      ensures files == old(files)
    {
      var next := CopyDir(dirs, src, dst);
      if next.Ok? {
        dirs := next.value;
        r := Pass;
      } else {
        dirs := CopyAborted(dirs, src, dst, reached);
        r := Fail(next.error);
      }
    }

    method Rename(src: string, dst: string) returns (r: Outcome<FsError>)
      modifies this
      ensures RenameDir(old(dirs), src, dst).Ok? ==> r == Pass && dirs == RenameDir(old(dirs), src, dst).value
      ensures RenameDir(old(dirs), src, dst).Err? ==> r == Fail(RenameDir(old(dirs), src, dst).error) && dirs == old(dirs)
      ensures files == old(files)
    {
      var next := RenameDir(dirs, src, dst);
      if next.Ok? {
        dirs := next.value;
        r := Pass;
      } else {
        r := Fail(next.error);
      }
    }

    method Remove(d: string) returns (r: Outcome<FsError>)
      modifies this
      ensures RemoveDir(old(dirs), d).Ok? ==> r == Pass && dirs == RemoveDir(old(dirs), d).value
      ensures RemoveDir(old(dirs), d).Err? ==> r == Fail(RemoveDir(old(dirs), d).error) && dirs == old(dirs)
      ensures files == old(files)
    {
      var next := RemoveDir(dirs, d);
      if next.Ok? {
        dirs := next.value;
        r := Pass;
      } else {
        r := Fail(next.error);
      }
    }

    method MakeDirectory(d: string)
      modifies this
      ensures dirs == MakeDir(old(dirs), d)
      ensures files == old(files)
    {
      dirs := MakeDir(dirs, d);
    }
  }
}
