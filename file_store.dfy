/** The file system the artwork cache writes to (lines 220-237 of `onMethodCall`): a map
    from paths to bytes and a set of directories, changed through `File.mkdirs`,
    `File.createNewFile` and a `FileOutputStream`. */
module FileStore {
  import opened JavaLang

  /** A Java `byte`, taken as its unsigned value. */
  newtype byte = x: int | 0 <= x < 256

  /** What the file system holds: the bytes of each file, and the directories. */
  datatype FsState = FsState(files: map<string, seq<byte>>, dirs: set<string>)

  /** `new File(path).exists()`: a file or a directory is there. */
  predicate Exists(st: FsState, path: string) {
    path in st.files || path in st.dirs
  }

  /** How the I/O of one cover write goes: `createNewFile` throws an `IOException`
      (nothing is created), or opening or writing the stream throws after `written`
      bytes reached the file. */
  datatype IoFault = NoFault | CreateFails | WriteFails(written: nat)

  /** The bytes that reach a file when writing `data` under `fault`. */
  function Written(data: seq<byte>, fault: IoFault): (r: seq<byte>)
    ensures fault.WriteFails? ==> |r| == if fault.written < |data| then fault.written else |data|
    ensures r <= data
    ensures !fault.WriteFails? ==> r == data
  {
    if fault.WriteFails? && fault.written < |data| then data[..fault.written] else data
  }

  /** The file system after the cover write of lines 220-237: nothing when the cover file
      exists or the source has no picture; otherwise the directory is made and the
      picture goes to the file, as far as `fault` lets it. Every exception inside is
      caught at line 234. */
  function SavedCover(st: FsState, directory: string, file: string, picture: Option<seq<byte>>,
                      fault: IoFault): (r: FsState)
    requires directory != file
    ensures Exists(st, file) ==> r == st
    ensures picture.None? ==> r == st
    ensures !Exists(st, file) && picture.Some? && fault.NoFault? ==>
      file in r.files && r.files[file] == picture.value
    ensures !Exists(st, file) && picture.Some? && !fault.CreateFails? ==>
      file in r.files && r.files[file] <= picture.value
    ensures !Exists(st, file) && picture.Some? && fault.CreateFails? ==> file !in r.files
    ensures forall p :: p != file ==> (p in r.files <==> p in st.files)
    ensures forall p :: p != file && p in st.files ==> r.files[p] == st.files[p]
    ensures st.dirs <= r.dirs <= st.dirs + {directory}
    ensures !Exists(st, file) && picture.Some? ==> r.dirs == st.dirs + {directory}
  {
    if Exists(st, file) || picture.None? then st
    else
      var dirs := st.dirs + {directory};
      if fault.CreateFails? then FsState(st.files, dirs)
      else FsState(st.files[file := Written(picture.value, fault)], dirs)
  }

  /** The file system as an object whose operations change it in place. */
  class FileSystem {
    var files: map<string, seq<byte>>
    var dirs: set<string>

    /** The current contents as a value. */
    function State(): FsState
      reads this
    {
      FsState(files, dirs)
    }

    constructor (initial: FsState)
      ensures State() == initial
    {
      files := initial.files;
      dirs := initial.dirs;
    }

    /** `File.exists()`. */
    function FileExists(path: string): (b: bool)
      reads this
      ensures b == Exists(State(), path)
    {
      path in files || path in dirs
    }

    /** `File.mkdirs()`: the directory is there afterwards (its parents are not modelled). */
    method Mkdirs(path: string)
      modifies this
      ensures files == old(files) && dirs == old(dirs) + {path}
    {
      dirs := dirs + {path};
    }

    /** `File.createNewFile()`: an empty file where nothing was; `ok` is false when the
        call throws. */
    method CreateNewFile(path: string, fails: bool) returns (ok: bool)
      modifies this
      ensures ok == !fails
      ensures dirs == old(dirs)
      ensures files == if fails || old(path in files || path in dirs) then old(files) else old(files)[path := []]
    {
      if fails {
        return false;
      }
      if !(path in files || path in dirs) {
        files := files[path := []];
      }
      return true;
    }

    /** `new FileOutputStream(path)` then `write(data)` and `close()`: the file is
        truncated, then receives the bytes `fault` lets through. */
    method WriteFile(path: string, data: seq<byte>, fault: IoFault)
      modifies this
      ensures files == old(files)[path := Written(data, fault)] && dirs == old(dirs)
    {
      files := files[path := Written(data, fault)];
    }
  }

  /** Lines 220-237 on the file system object. */
  method SaveCover(fs: FileSystem, directory: string, file: string, picture: Option<seq<byte>>,
                   fault: IoFault)
    requires directory != file
    modifies fs
    ensures fs.State() == SavedCover(old(fs.State()), directory, file, picture, fault)
  {
    if !fs.FileExists(file) {
      var embeddedPicture := picture;
      if embeddedPicture.Some? {
        fs.Mkdirs(directory);
        var ok := true;
        if !fs.FileExists(file) {
          ok := fs.CreateNewFile(file, fault.CreateFails?);
        }
        if ok {
          fs.WriteFile(file, picture.value, fault);
        }
      }
    }
  }

  // ---------------------------------------------------------------- properties

  /** Once a cover write has put something in the file, any later write for the same file
      changes nothing, whatever picture and faults it meets. */
  lemma SecondSaveChangesNothing(st: FsState, directory: string, file: string,
                                 picture: Option<seq<byte>>, fault: IoFault,
                                 picture2: Option<seq<byte>>, fault2: IoFault)
    requires directory != file
    requires picture.Some? && !fault.CreateFails?
    ensures var once := SavedCover(st, directory, file, picture, fault);
      SavedCover(once, directory, file, picture2, fault2) == once
  {
    var once := SavedCover(st, directory, file, picture, fault);
    assert Exists(once, file);
  }

  /** A cover cut short by a failing write stays cut short: the next request finds the
      file and does not write it again. */
  lemma TruncatedCoverIsKept(st: FsState, directory: string, file: string, picture: seq<byte>,
                             n: nat, fault2: IoFault)
    requires directory != file && !Exists(st, file) && n < |picture|
    ensures var once := SavedCover(st, directory, file, Some(picture), WriteFails(n));
      var twice := SavedCover(once, directory, file, Some(picture), fault2);
      file in twice.files && twice.files[file] == picture[..n] && twice.files[file] != picture
  {
    var once := SavedCover(st, directory, file, Some(picture), WriteFails(n));
    SecondSaveChangesNothing(st, directory, file, Some(picture), WriteFails(n), Some(picture), fault2);
    assert |once.files[file]| == n;
  }

  /** A failing `createNewFile` leaves no file, so the next request tries again. */
  lemma FailedCreateIsRetried(st: FsState, directory: string, file: string, picture: seq<byte>)
    requires directory != file && !Exists(st, file)
    ensures var once := SavedCover(st, directory, file, Some(picture), CreateFails);
      var twice := SavedCover(once, directory, file, Some(picture), NoFault);
      !Exists(once, file) && file in twice.files && twice.files[file] == picture
  {
  }
}
