/**
 * `copy_file` and `drop`: copy a container into a freshly created file at
 * a temporary path, then put that file in place of the destination.
 *
 * The file system is a map from paths to contents.  A path holds a netCDF
 * container, either one given as a source tree or one the copier wrote, or
 * anything else.  Both kinds of container open for reading; a written one
 * shows the tree `Library.reopen` gives it.  The temporary path (a UUID
 * under the temporary directory) is a parameter.
 */
module Driver {
  import opened NetCDF
  import opened Attributes
  import opened Variables
  import opened Groups

  datatype FileContent = Readable(root: Group) | Written(contents: OutGroup) | Opaque

  type Files = map<string, FileContent>

  /** The tree `open` shows for a netCDF container. */
  function SourceRoot(lib: Library, c: FileContent): (root: Group)
    requires !c.Opaque?
    ensures c.Readable? ==> root == c.root
    ensures c.Written? ==> root == lib.reopen(c.contents)
  {
    if c.Readable? then c.root else lib.reopen(c.contents)
  }

  /** How `drop` ends: normally, by `exit(1)` after a usage message, or by an error or trap. */
  datatype Ending = Done | Exit(message: string) | Failed(failure: Failure)

  const MissingFile := "missing input or output file."
  const SameFile := "Can not write to output to input file. Use -f to override input file"

  /** The name of the root group of a created container. */
  const RootName := "/"

  /** The whole copy of `root` into a new, empty container; the source is opened read-only. */
  function Copied(lib: Library, root: Group, exclude: seq<string>): Run
  {
    GroupCopied(lib, false, root, Run(EmptyGroup(RootName), [], [], None), exclude)
  }

  /**
   * `copy_file`: create (overwriting) a container at `to`, then copy the
   * source root into its root group.  Whatever the copy wrote before it
   * stopped stays in the file.
   */
  method CopyFile(lib: Library, from: Group, files: Files, to: string, exclude: seq<string>)
    returns (files': Files, diags: seq<Diagnostic>, failure: Option<Failure>)
    ensures var c := Copied(lib, from, exclude);
      files' == files[to := Written(c.group)] && diags == c.diags && failure == c.failure
  {
    var created := files[to := Written(EmptyGroup(RootName))];
    var r := CopyGroup(lib, false, from, Run(EmptyGroup(RootName), [], [], None), exclude);
    files' := created[to := Written(r.group)];
    diags := r.diags;
    failure := r.failure;
  }

  /**
   * A successful copy holds exactly the source root's dimensions, every
   * variable whose name is not excluded and whose kind is known, and the
   * root's attributes; no excluded name survives; and, since the source is
   * opened read-only, the source root had no child groups.
   */
  lemma CopiedMeaning(lib: Library, root: Group, exclude: seq<string>)
    requires Copied(lib, root, exclude).failure.None?
    ensures var g := Copied(lib, root, exclude).group;
      && root.groups == []
      && g.dimensions == root.dimensions
      && g.variables == Kept(lib, root.variables, exclude)
      && Clean(g.variables, exclude)
      && g.attributes == Overlay(lib, map[], root.attributes)
      && g.trace == DimensionEvents(root.dimensions) + CreationEvents(Kept(lib, root.variables, exclude))
  {
    var start := Run(EmptyGroup(RootName), [], [], None);
    GroupCopiedShape(lib, false, root, start, exclude);
    GroupCopiedClean(lib, false, root, start, exclude);
    GroupCopiedNoChildren(lib, false, root, start, exclude);
    assert start.group.dimensions + root.dimensions == root.dimensions;
    assert start.group.variables + Kept(lib, root.variables, exclude) == Kept(lib, root.variables, exclude);
    assert start.group.trace + DimensionEvents(root.dimensions) == DimensionEvents(root.dimensions);
  }

  /** What `drop` may commit: a copy without excluded variables, of a root without child groups. */
  lemma CopiedClean(lib: Library, root: Group, exclude: seq<string>)
    ensures Copied(lib, root, exclude).failure.None? ==>
      root.groups == [] && Clean(Copied(lib, root, exclude).group.variables, exclude)
  {
    if Copied(lib, root, exclude).failure.None? {
      CopiedMeaning(lib, root, exclude);
    }
  }

  /** Every path but `except` holds what it held before, or is still absent. */
  ghost predicate Untouched(files: Files, files': Files, except: string)
  {
    forall p :: p != except ==> (p in files' <==> p in files) && (p in files ==> files'[p] == files[p])
  }

  /** Writing the temporary path leaves every other path untouched. */
  lemma WriteUntouched(files: Files, temp: string, content: FileContent)
    ensures Untouched(files, files[temp := content], temp)
  {
  }

  /**
   * `drop`: check the arguments, open the source read-only, copy it to the
   * temporary path, then remove the destination and move the temporary
   * file onto it.  The temporary path is fresh: neither of the two URLs.
   */
  method Drop(lib: Library, urls: seq<string>, exclude: seq<string>, force: bool, files: Files, temp: string)
    returns (files': Files, diags: seq<Diagnostic>, ending: Ending)
    requires temp !in urls
    // usage errors: nothing is touched
    ensures |urls| != 2 ==> ending == Exit(MissingFile) && files' == files && diags == []
    ensures |urls| == 2 && urls[0] == urls[1] && !force ==>
      ending == Exit(SameFile) && files' == files && diags == []
    // the source cannot be opened: nothing is touched
    ensures |urls| == 2 && (urls[0] != urls[1] || force) && urls[0] !in files ==>
      ending.Failed? && ending.failure.Trap? && files' == files && diags == []
    ensures |urls| == 2 && (urls[0] != urls[1] || force) && urls[0] in files && files[urls[0]].Opaque? ==>
      ending == Failed(NotNetCDF(urls[0])) && files' == files && diags == []
    // the source is open: the copy goes to the temporary path
    ensures |urls| == 2 && (urls[0] != urls[1] || force) && urls[0] in files && !files[urls[0]].Opaque? ==>
      var c := Copied(lib, SourceRoot(lib, files[urls[0]]), exclude);
      && diags == c.diags
      && (c.failure.Some? ==> ending == Failed(c.failure.value) && files' == files[temp := Written(c.group)])
      && (c.failure.None? && urls[1] !in files ==>
            ending == Failed(NoSuchFile(urls[1])) && files' == files[temp := Written(c.group)])
      && (c.failure.None? && urls[1] in files ==>
            ending == Done && files' == (files - {temp})[urls[1] := Written(c.group)])
    // the destination changes only when everything succeeded
    ensures ending != Done ==> Untouched(files, files', temp)
    // what is committed: no excluded variable, from a source without child groups
    ensures ending == Done ==>
      && urls[0] in files && !files[urls[0]].Opaque? && SourceRoot(lib, files[urls[0]]).groups == []
      && urls[1] in files' && files'[urls[1]].Written?
      && Clean(files'[urls[1]].contents.variables, exclude)
  {
    diags := [];
    if |urls| != 2 {
      return files, diags, Exit(MissingFile);
    }
    if urls[0] == urls[1] && !force {
      return files, diags, Exit(SameFile);
    }
    // open(path:allowUpdate: false) yields nil for a missing file, which `file!` traps on
    if urls[0] !in files {
      return files, diags, Failed(Trap("no source container"));
    }
    var source := files[urls[0]];
    if source.Opaque? {
      return files, diags, Failed(NotNetCDF(urls[0]));
    }
    var root := SourceRoot(lib, source);
    var failure, copied;
    copied, diags, failure := CopyFile(lib, root, files, temp, exclude);
    WriteUntouched(files, temp, copied[temp]);
    if failure.Some? {
      return copied, diags, Failed(failure.value);
    }
    files', ending := Replace(copied, urls[1], temp);
    CopiedClean(lib, root, exclude);
  }

  /**
   * `removeItem(at: dest)`, which fails when nothing is there, then
   * `moveItem(at: temp, to: dest)`.
   */
  method Replace(files: Files, dest: string, temp: string) returns (files': Files, ending: Ending)
    requires temp in files && temp != dest
    ensures dest !in files ==> ending == Failed(NoSuchFile(dest)) && files' == files
    ensures dest in files ==> ending == Done && files' == (files - {temp})[dest := files[temp]]
  {
    if dest !in files {
      return files, Failed(NoSuchFile(dest));
    }
    var removed := files - {dest};
    var written := removed[temp];
    files' := (removed - {temp})[dest := written];
    ending := Done;
  }
}
