/**
 * Change detection for the SWT project page: the page text is compared with the
 * copy persisted in the file `pageSource` by the previous run.
 */
module Website {
  import opened Wrappers

  /**
   * How the file operations of one call turn out: whether `createNewFile` and
   * the read succeed, and, when the write fails, what the file holds afterwards.
   */
  datatype Faults = Faults(canCreate: bool, canRead: bool, writeFailure: Option<string>)

  /** No file operation fails. */
  const NoFaults := Faults(true, true, None)

  /** What a call returns, and what `pageSource` holds after it (`None`: no file). */
  datatype Check = Check(result: Result<bool, Exception>, snapshot: Option<string>)

  /**
   * `hasChanged` as a function of the file before the call. A missing file is
   * created empty and counts as the snapshot `""`; an equal snapshot answers
   * `false` with no write; a different one is overwritten with the page and
   * answers `true`. Each failing file operation is an `IOException` naming the
   * file's absolute path.
   *
   * The call throws exactly when a file operation it performs fails, and then
   * with an `IOException`; after any normal return the file holds exactly the
   * page.
   */
  function HasChangedSpec(snapshot: Option<string>, page: string, faults: Faults, path: string): (c: Check)
    ensures var persisted := if snapshot.Some? then snapshot.value else "";
      c.result.Err? <==>
        (snapshot.None? && !faults.canCreate) ||
        (snapshot.Some? && !faults.canRead) ||
        (persisted != page && faults.writeFailure.Some?)
    ensures c.result.Err? ==> c.result.error.IOException?
    ensures c.result.Ok? ==> c.snapshot == Some(page)
  {
    if snapshot.None? && !faults.canCreate then
      Check(Err(IOException("Unable to create file " + path)), None)
    else if snapshot.Some? && !faults.canRead then
      Check(Err(IOException("Unable to read file " + path)), snapshot)
    else
      var persisted := if snapshot.Some? then snapshot.value else "";
      if persisted == page then Check(Ok(false), Some(persisted))
      else if faults.writeFailure.Some? then
        Check(Err(IOException("Unable to write to file " + path)), faults.writeFailure)
      else Check(Ok(true), Some(page))
  }

  /** On the first run the answer is `true` unless the page itself is empty, and the page is stored. */
  lemma FirstRun(page: string, path: string)
    ensures HasChangedSpec(None, page, NoFaults, path) == Check(Ok(page != ""), Some(page))
  {
  }

  /**
   * The answer is `false` exactly when the file could be had and its contents
   * equal the page; then an existing snapshot is left as it was.
   */
  lemma FalseIffUnchanged(snapshot: Option<string>, page: string, faults: Faults, path: string)
    ensures var c := HasChangedSpec(snapshot, page, faults, path);
      (c.result == Ok(false) <==>
        (if snapshot.Some? then faults.canRead && snapshot.value == page else faults.canCreate && page == "")) &&
      (c.result == Ok(false) && snapshot.Some? ==> c.snapshot == snapshot)
  {
  }

  /** A page that differs from a readable snapshot overwrites it, and the answer is `true`. */
  lemma ChangedOverwrites(snapshot: string, page: string, path: string)
    requires snapshot != page
    ensures HasChangedSpec(Some(snapshot), page, NoFaults, path) == Check(Ok(true), Some(page))
  {
  }

  /** A second call with the same page, once the first returned normally, answers `false` and writes nothing. */
  lemma SecondCallUnchanged(snapshot: Option<string>, page: string,
                            first: Faults, second: Faults, path: string)
    requires HasChangedSpec(snapshot, page, first, path).result.Ok?
    requires second.canRead
    ensures var c := HasChangedSpec(snapshot, page, first, path);
      HasChangedSpec(c.snapshot, page, second, path) == Check(Ok(false), c.snapshot)
  {
  }

  class SwtWebsite {
    /** The contents of the file `pageSource`, or `None` while it does not exist. */
    var pageSource: Option<string>
    /** The absolute path of `pageSource`, as the error messages show it. */
    const absolutePath: string

    constructor(pageSource: Option<string>, absolutePath: string)
      ensures this.pageSource == pageSource && this.absolutePath == absolutePath
    {
      this.pageSource := pageSource;
      this.absolutePath := absolutePath;
    }

    /** Whether `page`, the page source just fetched, differs from the persisted one. */
    method HasChanged(page: string, faults: Faults) returns (changed: Result<bool, Exception>)
      modifies this`pageSource
      ensures Check(changed, pageSource) == HasChangedSpec(old(pageSource), page, faults, absolutePath)
    {
      var persisted := "";
      if pageSource.None? {
        if !faults.canCreate {
          return Err(IOException("Unable to create file " + absolutePath));
        }
        pageSource := Some("");
      } else {
        if !faults.canRead {
          return Err(IOException("Unable to read file " + absolutePath));
        }
        persisted := pageSource.value;
      }

      if persisted == page {
        return Ok(false);
      }
      if faults.writeFailure.Some? {
        pageSource := faults.writeFailure;
        return Err(IOException("Unable to write to file " + absolutePath));
      }
      pageSource := Some(page);
      return Ok(true);
    }
  }
}
