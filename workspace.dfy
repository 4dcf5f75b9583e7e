/** The temporary files of one render: their names (index.js:69-70, 87), an
    abstract file system they live in, and the cleanup of the `finally` block
    (index.js:128-133). */
module Workspace {
  import opened Text

  const Tmp := "/tmp"

  /** `path.join(tmp, name)` for a plain file name. */
  function TmpPath(name: string): string
  {
    Tmp + "/" + name
  }

  /** `input_video_${runId}.mp4`, where the downloaded video goes. */
  function VideoPath(runId: nat): string
  {
    TmpPath("input_video_" + NatToString(runId) + ".mp4")
  }

  /** Where the external processor writes the rendered video. */
  function OutputPath(fileName: string): string
  {
    TmpPath(fileName)
  }

  /** `text_${runId}_${index}.txt`, the caption file of overlay `index`. */
  function CaptionPath(runId: nat, index: nat): string
  {
    TmpPath("text_" + NatToString(runId) + "_" + NatToString(index) + ".txt")
  }

  function CaptionPaths(runId: nat, n: nat): set<string>
  {
    set i | 0 <= i < n :: CaptionPath(runId, i)
  }

  /** Every path a render with `n` overlays may create. */
  function TempPaths(runId: nat, fileName: string, n: nat): set<string>
  {
    {VideoPath(runId), OutputPath(fileName)} + CaptionPaths(runId, n)
  }

  /** Each overlay of a run has a caption file of its own. */
  lemma CaptionPathInjective(runId: nat, i: nat, j: nat)
    ensures CaptionPath(runId, i) == CaptionPath(runId, j) ==> i == j
  {
    var prefix := Tmp + "/" + "text_" + NatToString(runId) + "_";
    var pi, pj := CaptionPath(runId, i), CaptionPath(runId, j);
    assert pi == prefix + NatToString(i) + ".txt";
    assert pj == prefix + NatToString(j) + ".txt";
    if pi == pj {
      assert |NatToString(i)| == |NatToString(j)|;
      assert NatToString(i) == pi[|prefix|..|pi| - 4];
      assert NatToString(j) == pj[|prefix|..|pj| - 4];
      NatToStringInjective(i, j);
    }
  }

  /** The downloaded video never takes the place of a caption file. */
  lemma VideoIsNoCaption(runId: nat, index: nat)
    ensures VideoPath(runId) != CaptionPath(runId, index)
  {
    assert VideoPath(runId)[5] == 'i';
    assert CaptionPath(runId, index)[5] == 't';
  }

  /** `a` and `b` agree on every path outside `paths`. */
  ghost predicate SameOutside(a: map<string, string>, b: map<string, string>, paths: set<string>)
  {
    forall p :: p !in paths ==> (p in a <==> p in b) && (p in a ==> a[p] == b[p])
  }

  /** Removing `paths` from two file systems that differ only inside `paths`
      leaves the same file system. */
  lemma RemoveOutside(a: map<string, string>, b: map<string, string>, paths: set<string>)
    requires SameOutside(a, b, paths)
    ensures a - paths == b - paths
  {
  }

  /** The local file system as far as a render sees it: which paths exist
      and what they hold. Video bytes are opaque, so contents are strings. */
  class FileSystem {
    var files: map<string, string>

    constructor (initial: map<string, string>)
      ensures files == initial
    {
      files := initial;
    }

    /** `fs.existsSync(path)`. */
    predicate Exists(path: string)
      reads this
    {
      path in files
    }

    /** `fs.writeFileSync(path, content)`: creates or overwrites the file. */
    method WriteFile(path: string, content: string)
      modifies this
      ensures files == old(files)[path := content]
    {
      files := files[path := content];
    }

    /** `fs.unlinkSync(path)`, which throws for a missing file. */
    method Unlink(path: string)
      requires path in files
      modifies this
      ensures files == old(files) - {path}
    {
      files := files - {path};
    }
  }

  /** `if (fs.existsSync(f)) fs.unlinkSync(f);` */
  method RemoveIfExists(fs: FileSystem, path: string)
    modifies fs
    ensures fs.files == old(fs.files) - {path}
  {
    if fs.Exists(path) {
      fs.Unlink(path);
    }
  }

  /** The `finally` block: the input video, the output video and the caption
      file of each of the `n` overlays are removed where they exist, and
      nothing else is touched. */
  method Cleanup(fs: FileSystem, runId: nat, fileName: string, n: nat)
    modifies fs
    ensures fs.files == old(fs.files) - TempPaths(runId, fileName, n)
  {
    RemoveIfExists(fs, VideoPath(runId));
    RemoveIfExists(fs, OutputPath(fileName));
    var fixed := {VideoPath(runId), OutputPath(fileName)};
    assert fs.files == old(fs.files) - fixed;
    for i := 0 to n
      invariant fs.files == old(fs.files) - (fixed + CaptionPaths(runId, i))
    {
      RemoveIfExists(fs, CaptionPath(runId, i));
      assert CaptionPaths(runId, i + 1) == CaptionPaths(runId, i) + {CaptionPath(runId, i)};
    }
  }
}
