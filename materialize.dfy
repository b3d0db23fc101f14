/** `saveCodeFiles`: each parsed TOML entry either overwrites its file with
    `code`, or patches the file's current content with `diff`, or is skipped.
    The output directory is an in-memory map from file path to content. */
module Materialize {

  import opened Wrappers
  import opened Patch

  /** One `[[code]]` record of the parsed TOML; `code` and `diff` may be
      absent. */
  datatype CodeEntry = CodeEntry(filepath: string, summary: string,
                                 code: Option<string>, diff: Option<string>)

  /** `Deno.readTextFile` on a path that does not exist throws. */
  datatype SaveError = MissingFile(path: string)

  type Files = map<string, string>

  /** JavaScript truthiness of an optional string: present and non-empty. */
  predicate Truthy(o: Option<string>) {
    o.Some? && o.value != ""
  }

  /** An entry that writes nothing: neither a truthy `code` nor a truthy `diff`. */
  predicate IsSkipped(e: CodeEntry) {
    !Truthy(e.code) && !Truthy(e.diff)
  }

  /** An entry handled as a patch: no truthy `code`, a truthy `diff`. */
  predicate IsPatch(e: CodeEntry) {
    !Truthy(e.code) && Truthy(e.diff)
  }

  /** The effect of one entry on the files. */
  function SaveEntry(files: Files, e: CodeEntry): Result<Files, SaveError>
  {
    if Truthy(e.code) then Ok(files[e.filepath := e.code.value])
    else if Truthy(e.diff) then
      if e.filepath in files
      then Ok(files[e.filepath := ApplyDiffSpec(files[e.filepath], e.diff.value)])
      else Err(MissingFile(e.filepath))
    else Ok(files)
  }

  /** The files after the entries, in declaration order, and the error that
      stopped the loop, if any. Writes made before the error stay. */
  function SaveAll(files: Files, entries: seq<CodeEntry>): (Files, Option<SaveError>)
    decreases entries
  {
    if entries == [] then (files, None)
    else match SaveEntry(files, entries[0])
      case Err(err) => (files, Some(err))
      case Ok(next) => SaveAll(next, entries[1..])
  }

  /** The output directory. */
  class Dist {
    var files: Files

    constructor (initial: Files)
      ensures files == initial
    {
      files := initial;
    }

    /** `saveCodeFiles`: processes the entries in order and stops at the first
        patch whose file does not exist, returning that error. */
    method SaveCodeFiles(entries: seq<CodeEntry>) returns (failure: Option<SaveError>)
      modifies this
      ensures (files, failure) == SaveAll(old(files), entries)
    {
      for i := 0 to |entries|
        invariant SaveAll(old(files), entries) == SaveAll(files, entries[i..])
      {
        var entry := entries[i];
        assert entries[i..][1..] == entries[i + 1..];
        if entry.code.Some? && entry.code.value != "" {
          files := files[entry.filepath := entry.code.value];
        } else if entry.diff.Some? && entry.diff.value != "" {
          if entry.filepath !in files {
            failure := Some(MissingFile(entry.filepath));
            return;
          }
          var currentContent := files[entry.filepath];
          var updatedContent := ApplyDiff(currentContent, entry.diff.value);
          files := files[entry.filepath := updatedContent];
        }
      }
      failure := None;
    }
  }

  // ---------------------------------------------------------------------
  // Properties of the dispatch

  /** A truthy `code` wins over any `diff`; an entry with neither changes
      nothing; a patch of a missing file is an error and writes nothing. */
  lemma DispatchRule(files: Files, e: CodeEntry)
    ensures Truthy(e.code) ==> SaveAll(files, [e]) == (files[e.filepath := e.code.value], None)
    ensures IsSkipped(e) ==> SaveAll(files, [e]) == (files, None)
    ensures IsPatch(e) && e.filepath !in files ==> SaveAll(files, [e]) == (files, Some(MissingFile(e.filepath)))
    ensures IsPatch(e) && e.filepath in files ==>
              SaveAll(files, [e]) == (files[e.filepath := ApplyDiffSpec(files[e.filepath], e.diff.value)], None)
  {
    assert [e][1..] == [];
  }

  /** Entries that write nothing leave the files unchanged. */
  lemma {:induction false} SkippedEntriesChangeNothing(files: Files, entries: seq<CodeEntry>)
    requires forall k :: 0 <= k < |entries| ==> IsSkipped(entries[k])
    ensures SaveAll(files, entries) == (files, None)
  {
    if entries != [] {
      SkippedEntriesChangeNothing(files, entries[1..]);
    }
  }

  /** The paths named by the entries. */
  function Paths(entries: seq<CodeEntry>): set<string>
  {
    set k | 0 <= k < |entries| :: entries[k].filepath
  }

  /** A path no entry names keeps its content (or stays absent), and no file
      is ever deleted. */
  lemma {:induction false} OtherPathsUntouched(files: Files, entries: seq<CodeEntry>, p: string)
    requires p !in Paths(entries)
    ensures p in SaveAll(files, entries).0 <==> p in files
    ensures p in files ==> SaveAll(files, entries).0[p] == files[p]
    decreases entries
  {
    if entries != [] {
      assert entries[0].filepath in Paths(entries);
      assert Paths(entries[1..]) <= Paths(entries) by {
        forall q | q in Paths(entries[1..]) ensures q in Paths(entries) {
          var k :| 0 <= k < |entries| - 1 && entries[1..][k].filepath == q;
          assert entries[k + 1].filepath == q;
        }
      }
      match SaveEntry(files, entries[0])
      case Err(_) =>
      case Ok(next) => OtherPathsUntouched(next, entries[1..], p);
    }
  }

  /** Files are only ever created or overwritten: the paths afterwards are
      the old ones plus some of the entries' paths. */
  lemma {:induction false} PathsAfterSave(files: Files, entries: seq<CodeEntry>)
    ensures files.Keys <= SaveAll(files, entries).0.Keys <= files.Keys + Paths(entries)
    decreases entries
  {
    if entries != [] {
      assert Paths(entries) == {entries[0].filepath} + Paths(entries[1..]) by {
        forall q | q in Paths(entries) ensures q in {entries[0].filepath} + Paths(entries[1..]) {
          var k :| 0 <= k < |entries| && entries[k].filepath == q;
          if k > 0 { assert entries[1..][k - 1].filepath == q; }
        }
        forall q | q in Paths(entries[1..]) ensures q in Paths(entries) {
          var k :| 0 <= k < |entries| - 1 && entries[1..][k].filepath == q;
          assert entries[k + 1].filepath == q;
        }
      }
      match SaveEntry(files, entries[0])
      case Err(_) =>
      case Ok(next) => PathsAfterSave(next, entries[1..]);
    }
  }

  /** Processing two batches of entries is processing their concatenation,
      except that an error in the first batch stops before the second. */
  lemma {:induction false} SaveConcat(files: Files, es1: seq<CodeEntry>, es2: seq<CodeEntry>)
    ensures SaveAll(files, es1 + es2) ==
              (var (mid, err) := SaveAll(files, es1);
               if err.Some? then (mid, err) else SaveAll(mid, es2))
    decreases es1
  {
    if es1 == [] {
      assert es1 + es2 == es2;
    } else {
      assert (es1 + es2)[0] == es1[0];
      assert (es1 + es2)[1..] == es1[1..] + es2;
      match SaveEntry(files, es1[0])
      case Err(_) =>
      case Ok(next) => SaveConcat(next, es1[1..], es2);
    }
  }

  /** A patch entry sees the file a previous entry wrote: creating a file and
      then patching it in the same batch applies the patch to the new body. */
  lemma CreateThenPatch(files: Files, create: CodeEntry, patch: CodeEntry)
    requires Truthy(create.code) && IsPatch(patch) && patch.filepath == create.filepath
    ensures SaveAll(files, [create, patch]).1 == None
    ensures SaveAll(files, [create, patch]).0 ==
              files[create.filepath := ApplyDiffSpec(create.code.value, patch.diff.value)]
  {
    assert [create, patch][1..] == [patch];
    var written := files[create.filepath := create.code.value];
    DispatchRule(written, patch);
  }

  /** An error comes from the first entry that fails: a patch entry whose
      file is absent at that point. The files left behind are exactly those
      written by the entries before it. */
  lemma {:induction false} ErrorIsMissingPatchTarget(files: Files, entries: seq<CodeEntry>)
    ensures SaveAll(files, entries).1.Some? ==>
              exists k :: 0 <= k < |entries| && IsPatch(entries[k]) &&
                SaveAll(files, entries[..k]) == (SaveAll(files, entries).0, None) &&
                entries[k].filepath !in SaveAll(files, entries).0 &&
                SaveAll(files, entries).1 == Some(MissingFile(entries[k].filepath))
    decreases entries
  {
    if entries != [] {
      var r := SaveAll(files, entries);
      match SaveEntry(files, entries[0])
      case Err(_) =>
        assert entries[..0] == [];
        assert IsPatch(entries[0]) && SaveAll(files, entries[..0]) == (r.0, None);
      case Ok(next) =>
        ErrorIsMissingPatchTarget(next, entries[1..]);
        if r.1.Some? {
          var rest := entries[1..];
          var k :| 0 <= k < |rest| && IsPatch(rest[k]) &&
                   SaveAll(next, rest[..k]) == (r.0, None) &&
                   rest[k].filepath !in r.0 &&
                   r.1 == Some(MissingFile(rest[k].filepath));
          var prefix := entries[..k + 1];
          assert prefix[0] == entries[0];
          assert prefix[1..] == rest[..k];
          assert entries[k + 1] == rest[k];
          assert SaveAll(files, prefix) == (r.0, None);
        }
    }
  }

  /** If every patch entry targets a file that already exists, the batch
      succeeds. */
  lemma {:induction false} PatchTargetsPresentMeansSuccess(files: Files, entries: seq<CodeEntry>)
    requires forall k :: 0 <= k < |entries| && IsPatch(entries[k]) ==> entries[k].filepath in files
    ensures SaveAll(files, entries).1 == None
    decreases entries
  {
    if entries != [] {
      match SaveEntry(files, entries[0])
      case Err(_) =>
        assert false;
      case Ok(next) =>
        assert files.Keys <= next.Keys;
        forall k | 0 <= k < |entries| - 1 && IsPatch(entries[1..][k])
          ensures entries[1..][k].filepath in next
        {
          assert entries[1..][k] == entries[k + 1];
        }
        PatchTargetsPresentMeansSuccess(next, entries[1..]);
    }
  }
}
