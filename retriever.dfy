/** One "MetadataRetriever" call of `MetadataRetriever.onMethodCall` (lines 119-266): the
    task that reads a source, answers the caller, and caches the cover art, seen as the
    sequence of events it produces. */
module Retriever {
  import opened JavaLang
  import opened Metadata
  import opened CoverArt
  import opened FileStore

  /** The arguments of the call; each is null (`None`) when the caller leaves it out. */
  datatype Request = Request(uri: Option<string>, coverDirectory: Option<string>,
                             waitUntilAlbumArtIsSaved: Option<bool>)

  /** What the decoder finds behind the URI: whether a `file://` source opens as a
      `FileInputStream`, whether `setDataSource` accepts it, its tags and its embedded
      picture (the same on both calls of `getEmbeddedPicture`). */
  datatype Source = Source(opens: bool, accepted: bool, tags: RawTags, picture: Option<seq<byte>>)

  /** The observable steps of one task, in order. */
  datatype Event =
    | Respond(payload: Fields)                     // `result.success(payload)` is posted
    | AttemptCover(directory: string, file: string) // the cover write of lines 220-237
    | Release                                      // `retriever.release()`, `input.close()`
    | Escape                                       // an exception leaves the task uncaught

  /** `waitUntilAlbumArtIsSaved`, false when missing (lines 123-125). */
  predicate Waits(req: Request): (b: bool)
    ensures b <==> req.waitUntilAlbumArtIsSaved == Some(true)
  {
    req.waitUntilAlbumArtIsSaved.GetOr(false)
  }

  /** The map of a fallback response: only "uri" (lines 260-261). */
  function UriOnly(uri: string): (m: Fields)
    ensures m.Keys == {Uri} && m[Uri] == Some(uri)
  {
    map[Uri := Some(uri)]
  }

  /** Whether the source is read: not a `file://` URI that fails to open (the
      `IOException` caught at line 258). */
  predicate Opens(uri: string, src: Source): (b: bool)
    ensures !HasFileScheme(uri) ==> b
    ensures HasFileScheme(uri) ==> (b <==> src.opens)
  {
    !HasFileScheme(uri) || src.opens
  }

  /** The events of a task once its source is read, given the metadata and the cover
      target: the answer at once unless the caller waits, then the cover attempt and
      the release, or an escaping exception when the target does not resolve, then the
      answer of a waiting caller. */
  function Answered(waits: bool, metadata: Fields, target: Option<CoverTarget>): (r: seq<Event>)
    ensures forall i :: 0 <= i < |r| && r[i].AttemptCover? ==>
      target == Some(CoverTarget(r[i].directory, r[i].file))
    ensures Release in r <==> target.Some?
  {
    var early := if waits then [] else [Respond(metadata)];
    match target
    case None => early + [Escape]
    case Some(t) =>
      early + [AttemptCover(t.directory, t.file), Release] + (if waits then [Respond(metadata)] else [])
  }

  /** The events of one task. A null URI throws at line 139; a `file://` source that does
      not open gets the fallback answer; a source the decoder rejects throws
      `IllegalArgumentException`; any other source is read. */
  function Task(req: Request, src: Source, decode: string -> Option<string>): (r: seq<Event>)
    ensures forall i :: 0 <= i < |r| && r[i].AttemptCover? ==>
      && Reads(req, src)
      && ResolveCover(Normalized(req.uri.value, src.tags), req.uri.value, req.coverDirectory, decode)
           == Some(CoverTarget(r[i].directory, r[i].file))
  {
    if req.uri.None? then [Escape]
    else
      var uri := req.uri.value;
      if !Opens(uri, src) then [Respond(UriOnly(uri))]
      else if !src.accepted then [Escape]
      else
        var metadata := Normalized(uri, src.tags);
        Answered(Waits(req), metadata, ResolveCover(metadata, uri, req.coverDirectory, decode))
  }

  /** The file system after one task: changed only by the cover write, when reached. */
  function FsAfter(st: FsState, req: Request, src: Source, decode: string -> Option<string>,
                   fault: IoFault): (r: FsState)
    ensures !Reads(req, src) ==> r == st
    ensures forall p :: p in st.files ==> p in r.files && r.files[p] == st.files[p]
    ensures st.dirs <= r.dirs
  {
    if req.uri.None? || !Opens(req.uri.value, src) || !src.accepted then st
    else
      var uri := req.uri.value;
      match ResolveCover(Normalized(uri, src.tags), uri, req.coverDirectory, decode)
      case None => st
      case Some(target) => SavedCover(st, target.directory, target.file, src.picture, fault)
  }

  /** The number of answers in a trace. */
  function Responses(trace: seq<Event>): nat {
    if trace == [] then 0
    else (if trace[0].Respond? then 1 else 0) + Responses(trace[1..])
  }

  /** Lines 165-189: the track name of the metadata, else the last "/" piece of the URI
      without its trailing "/", decoded for a `file://` URI; `None` when an exception
      escapes. */
  method TrackNameOf(metadata: Fields, uri: string, decode: string -> Option<string>)
    returns (trackName: Option<string>)
    ensures trackName == if Get(metadata, TrackName).Some? then Get(metadata, TrackName)
                         else FallbackTrackName(uri, decode)
  {
    trackName := Get(metadata, TrackName);
    if trackName.None? {
      var uri := uri;
      if EndsWithSlash(uri) {
        uri := uri[..|uri| - 1];
      }
      var parts := Split(uri, PathSeparators);
      if |parts| == 0 {
        return None;
      }
      trackName := Some(parts[|parts| - 1]);
      if HasFileScheme(uri) {
        trackName := decode(trackName.value);
      }
    }
  }

  /** Lines 165-218: the names with their defaults, then the cover directory without its
      trailing "/" and the cover file; `None` when an exception escapes. */
  method CoverTargetOf(metadata: Fields, uri: string, coverDirectory: Option<string>,
                       decode: string -> Option<string>) returns (target: Option<CoverTarget>)
    ensures target == ResolveCover(metadata, uri, coverDirectory, decode)
  {
    var trackName := TrackNameOf(metadata, uri, decode);
    if trackName.None? {
      return None;
    }
    var albumName := Get(metadata, AlbumName);
    if albumName.None? {
      albumName := Some(UnknownAlbum);
    }
    var albumArtistName := Get(metadata, AlbumArtistName);
    if albumArtistName.None? {
      albumArtistName := Some(UnknownArtist);
    }
    if coverDirectory.None? {
      return None;
    }
    var directory := coverDirectory.value;
    if EndsWithSlash(directory) {
      directory := directory[..|directory| - 1];
    }
    var key := CoverKey(trackName.value, albumName.value, albumArtistName.value);
    return Some(CoverTarget(directory, CoverPath(directory, key)));
  }

  /** `HashMap.put` of the value a key already holds leaves the map as it is. */
  method PutAgain(m: Fields, key: Field, value: Option<string>) returns (r: Fields)
    requires key in m && m[key] == value
    ensures r == m
  {
    r := m[key := value];
    assert r == m;
  }

  /** Lines 147-162 and 165-254 once the metadata is read: the early answer, the cover
      target, the cover write, the release and the late answer. */
  method AnswerAndCache(fs: FileSystem, waits: bool, metadata: Fields, uri: string,
                        coverDirectory: Option<string>, picture: Option<seq<byte>>,
                        decode: string -> Option<string>, fault: IoFault)
    returns (trace: seq<Event>, target: Option<CoverTarget>)
    modifies fs
    ensures target == ResolveCover(metadata, uri, coverDirectory, decode)
    ensures trace == Answered(waits, metadata, target)
    ensures target.None? ==> fs.State() == old(fs.State())
    ensures target.Some? ==>
      fs.State() == SavedCover(old(fs.State()), target.value.directory, target.value.file, picture, fault)
  {
    trace := [];
    if !waits {
      trace := trace + [Respond(metadata)];
    }
    target := CoverTargetOf(metadata, uri, coverDirectory, decode);
    if target.None? {
      trace := trace + [Escape];
      return;
    }
    SaveCover(fs, target.value.directory, target.value.file, picture, fault);
    trace := trace + [AttemptCover(target.value.directory, target.value.file), Release];
    if waits {
      trace := trace + [Respond(metadata)];
    }
  }

  /** The task on a file system object, step by step as the source runs it. */
  method HandleRequest(fs: FileSystem, req: Request, src: Source, decode: string -> Option<string>,
                       fault: IoFault) returns (trace: seq<Event>)
    modifies fs
    ensures trace == Task(req, src, decode)
    ensures fs.State() == FsAfter(old(fs.State()), req, src, decode, fault)
  {
    var waitUntilAlbumArtIsSaved := req.waitUntilAlbumArtIsSaved;
    if waitUntilAlbumArtIsSaved.None? {
      waitUntilAlbumArtIsSaved := Some(false);
    }
    if req.uri.None? {
      return [Escape];
    }
    var uri := req.uri.value;
    if HasFileScheme(uri) && !src.opens {
      return [Respond(UriOnly(uri))];
    }
    if !src.accepted {
      return [Escape];
    }
    var metadata := GetMetadata(uri, src.tags);
    UriEntry(uri, src.tags);
    metadata := PutAgain(metadata, Uri, Some(uri));
    var target;
    trace, target := AnswerAndCache(fs, waitUntilAlbumArtIsSaved.value, metadata, uri,
                                    req.coverDirectory, src.picture, decode, fault);
  }

  // ---------------------------------------------------------------- properties

  /** Answers in a trace add up over its parts. */
  lemma {:induction false} ResponsesAppend(a: seq<Event>, b: seq<Event>)
    ensures Responses(a + b) == Responses(a) + Responses(b)
  {
    if a != [] {
      assert (a + b)[1..] == a[1..] + b;
      ResponsesAppend(a[1..], b);
    } else {
      assert a + b == b;
    }
  }

  /** Once the source is read, the caller is answered exactly once, unless the cover
      target does not resolve and the caller waits: then never. */
  lemma AnsweredCount(waits: bool, metadata: Fields, target: Option<CoverTarget>)
    ensures var trace := Answered(waits, metadata, target);
      && Responses(trace) == (if waits && target.None? then 0 else 1)
      && (Escape in trace <==> target.None?)
  {
    var early: seq<Event> := if waits then [] else [Respond(metadata)];
    assert Responses(early) == if waits then 0 else 1 by {
      if !waits { assert early[1..] == []; }
    }
    match target
    case None =>
      assert [Escape][1..] == [];
      ResponsesAppend(early, [Escape]);
    case Some(t) =>
      var middle: seq<Event> := [AttemptCover(t.directory, t.file), Release];
      var late: seq<Event> := if waits then [Respond(metadata)] else [];
      assert middle[1..][1..] == [];
      assert Responses(late) == if waits then 1 else 0 by {
        if waits { assert late[1..] == []; }
      }
      ResponsesAppend(early, middle);
      ResponsesAppend(early + middle, late);
  }

  /** Once the source is read, every answer carries the metadata; without waiting it is
      the first event and the only answer; when waiting for a resolved target it comes
      after the cover attempt and the release. The whole trace is given for each mode
      and outcome of the target. */
  lemma AnsweredOrder(waits: bool, metadata: Fields, target: Option<CoverTarget>)
    ensures var trace := Answered(waits, metadata, target);
      && (forall i :: 0 <= i < |trace| && trace[i].Respond? ==> trace[i].payload == metadata)
      && (!waits ==> trace[0] == Respond(metadata) && forall i :: 0 < i < |trace| ==> !trace[i].Respond?)
      && (waits && target.Some? ==>
            trace == [AttemptCover(target.value.directory, target.value.file), Release, Respond(metadata)])
      && (!waits && target.Some? ==>
            trace == [Respond(metadata), AttemptCover(target.value.directory, target.value.file), Release])
      && (target.None? ==> trace == (if waits then [] else [Respond(metadata)]) + [Escape])
  {
  }

  /** Whether the task reads the source. */
  predicate Reads(req: Request, src: Source) {
    req.uri.Some? && Opens(req.uri.value, src) && src.accepted
  }

  /** A task never answers twice; it answers exactly once unless an exception escapes. */
  lemma ResponseCount(req: Request, src: Source, decode: string -> Option<string>)
    ensures var trace := Task(req, src, decode);
      && Responses(trace) <= 1
      && (Escape !in trace ==> Responses(trace) == 1)
  {
    if Reads(req, src) {
      var uri := req.uri.value;
      var metadata := Normalized(uri, src.tags);
      AnsweredCount(Waits(req), metadata, ResolveCover(metadata, uri, req.coverDirectory, decode));
    } else {
      assert Task(req, src, decode)[1..] == [];
    }
  }

  /** A caller that waits gets no answer at all when an exception escapes; one that does
      not wait loses its answer only when the exception comes before the source is read. */
  lemma EscapeLosesAnswer(req: Request, src: Source, decode: string -> Option<string>)
    ensures var trace := Task(req, src, decode);
      && (Waits(req) ==> (Responses(trace) == 0 <==> Escape in trace))
      && (!Waits(req) ==> (Responses(trace) == 0 <==> trace == [Escape]))
  {
    if Reads(req, src) {
      var uri := req.uri.value;
      var metadata := Normalized(uri, src.tags);
      var target := ResolveCover(metadata, uri, req.coverDirectory, decode);
      AnsweredCount(Waits(req), metadata, target);
      if !Waits(req) {
        assert Task(req, src, decode)[0].Respond?;
      }
    } else {
      assert Task(req, src, decode)[1..] == [];
    }
  }

  /** Without the wait flag (missing or false), a source that is read is answered with its
      metadata before anything is done about the cover. */
  lemma AnswerBeforeCover(req: Request, src: Source, decode: string -> Option<string>)
    requires !Waits(req) && Reads(req, src)
    ensures var trace := Task(req, src, decode);
      && trace[0] == Respond(Normalized(req.uri.value, src.tags))
      && forall i :: 0 < i < |trace| ==> !trace[i].Respond?
  {
    var uri := req.uri.value;
    var metadata := Normalized(uri, src.tags);
    AnsweredOrder(false, metadata, ResolveCover(metadata, uri, req.coverDirectory, decode));
  }

  /** With the wait flag, a source whose cover target resolves is answered last, after the
      cover attempt and the release. */
  lemma AnswerAfterCover(req: Request, src: Source, decode: string -> Option<string>)
    requires Waits(req) && Reads(req, src)
    requires ResolveCover(Normalized(req.uri.value, src.tags), req.uri.value, req.coverDirectory, decode).Some?
    ensures var trace := Task(req, src, decode);
      && |trace| == 3 && trace[0].AttemptCover? && trace[1] == Release
      && trace[2] == Respond(Normalized(req.uri.value, src.tags))
  {
    var uri := req.uri.value;
    var metadata := Normalized(uri, src.tags);
    AnsweredOrder(true, metadata, ResolveCover(metadata, uri, req.coverDirectory, decode));
  }

  /** A `file://` source that fails to open is answered at once, wait flag or not, with a
      map holding only "uri"; the file system is left alone. */
  lemma FallbackOnOpenFailure(st: FsState, req: Request, src: Source, decode: string -> Option<string>,
                              fault: IoFault)
    requires req.uri.Some? && HasFileScheme(req.uri.value) && !src.opens
    ensures Task(req, src, decode) == [Respond(UriOnly(req.uri.value))]
    ensures FsAfter(st, req, src, decode, fault) == st
  {
  }

  /** Every answer carries either the normalised metadata of the source or the fallback
      map. */
  lemma AnswerPayload(req: Request, src: Source, decode: string -> Option<string>, i: nat)
    requires i < |Task(req, src, decode)| && Task(req, src, decode)[i].Respond?
    ensures req.uri.Some?
    ensures var payload := Task(req, src, decode)[i].payload;
      payload == (if Opens(req.uri.value, src) then Normalized(req.uri.value, src.tags)
                  else UriOnly(req.uri.value))
  {
    if Reads(req, src) {
      var uri := req.uri.value;
      var metadata := Normalized(uri, src.tags);
      AnsweredOrder(Waits(req), metadata, ResolveCover(metadata, uri, req.coverDirectory, decode));
    }
  }

  /** Asking again for a source whose cover was written changes nothing on disk. */
  lemma RepeatedRequestKeepsFiles(st: FsState, req: Request, src: Source,
                                  decode: string -> Option<string>, fault: IoFault, fault2: IoFault)
    requires src.picture.Some? && !fault.CreateFails?
    ensures var once := FsAfter(st, req, src, decode, fault);
      FsAfter(once, req, src, decode, fault2) == once
  {
    if Reads(req, src) {
      var uri := req.uri.value;
      match ResolveCover(Normalized(uri, src.tags), uri, req.coverDirectory, decode)
      case None =>
      case Some(target) =>
        SecondSaveChangesNothing(st, target.directory, target.file, src.picture, fault,
                                 src.picture, fault2);
    }
  }

  /** The title, album and album artist entries of a normalised map are the tags. */
  lemma NameEntries(uri: string, tags: RawTags)
    ensures var m := Normalized(uri, tags);
      && Get(m, TrackName) == Tag(tags, KeyTitle)
      && Get(m, AlbumName) == Tag(tags, KeyAlbum)
      && Get(m, AlbumArtistName) == Tag(tags, KeyAlbumArtist)
  {
    CopiedFieldsVerbatim(uri, tags, TrackName);
    CopiedFieldsVerbatim(uri, tags, AlbumName);
    CopiedFieldsVerbatim(uri, tags, AlbumArtistName);
  }

  /** The cover file a read source is cached under is built from its own tags: its title
      (or the name recovered from the URI), its album tag (or "Unknown Album") and its
      album artist tag (or "Unknown Artist"), cleaned, with ".PNG". */
  lemma CoverFileOfTags(req: Request, src: Source, decode: string -> Option<string>, i: nat)
    requires i < |Task(req, src, decode)| && Task(req, src, decode)[i].AttemptCover?
    ensures Reads(req, src) && req.coverDirectory.Some?
    ensures var event := Task(req, src, decode)[i];
      var uri := req.uri.value;
      var directory := StripTrailingSlash(req.coverDirectory.value);
      var trackName := if KeyTitle in src.tags then Some(src.tags[KeyTitle]) else FallbackTrackName(uri, decode);
      && trackName.Some?
      && event.directory == directory
      && event.file == directory + "/" + (DeleteChars(trackName.value, ForbiddenChars)
           + DeleteChars(Tag(src.tags, KeyAlbum).GetOr(UnknownAlbum), ForbiddenChars)
           + DeleteChars(Tag(src.tags, KeyAlbumArtist).GetOr(UnknownArtist), ForbiddenChars))
           + CoverExtension
  {
    var uri := req.uri.value;
    var metadata := Normalized(uri, src.tags);
    assert ResolveCover(metadata, uri, req.coverDirectory, decode).Some?;
    NameEntries(uri, src.tags);
    ResolveCoverOfNames(metadata, uri, req.coverDirectory.value, decode);
  }
}
