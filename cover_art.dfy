/** The naming half of the artwork cache in `MetadataRetriever.onMethodCall`: the names
    that fall back to defaults, the track name recovered from the URI, and the path of
    the cover file. */
module CoverArt {
  import opened JavaLang
  import opened Metadata

  /** The album name used when the metadata has none. */
  const UnknownAlbum: string := "Unknown Album"

  /** The album artist name used when the metadata has none. */
  const UnknownArtist: string := "Unknown Artist"

  /** The extension of every cover file, upper-case as in the format "%s/%s.PNG". */
  const CoverExtension: string := ".PNG"

  /** The chars matched by the pattern "[\\\\/:*?\"<>| ]": \ / : * ? " < > | and space. */
  const ForbiddenChars: set<char> := {'\\', '/', ':', '*', '?', '"', '<', '>', '|', ' '}

  /** The separator of URI segments and path components. */
  const PathSeparators: set<char> := {'/'}

  /** The scheme prefix, compared after lower-casing the whole URI. */
  const FileScheme: string := "file://"

  /** `s.toLowerCase().startsWith("file://")`: the first seven chars spell "file://" in
      any mix of cases. */
  predicate HasFileScheme(s: string): (b: bool)
    ensures b <==> |s| >= |FileScheme| && forall k :: 0 <= k < |FileScheme| ==> LowerAscii(s[k]) == FileScheme[k]
  {
    StartsWith(ToLowerCase(s), FileScheme)
  }

  /** `if (s.endsWith("/")) s = s.substring(0, s.length() - 1)`: at most one "/" goes. */
  function StripTrailingSlash(s: string): (r: string)
    ensures EndsWithSlash(s) ==> s == r + "/"
    ensures !EndsWithSlash(s) ==> r == s
  {
    if EndsWithSlash(s) then s[..|s| - 1] else s
  }

  /** The track name recovered from the URI when the metadata has none (lines 170-188):
      the last "/" piece of the URI without its trailing "/", URL-decoded when the URI
      has the file scheme. `None` when an exception escapes: the split has no piece
      (`ArrayIndexOutOfBoundsException`) or `decode` rejects the piece
      (`IllegalArgumentException`, which the catch of `UnsupportedEncodingException` lets
      through). */
  function FallbackTrackName(uri: string, decode: string -> Option<string>): (r: Option<string>)
    ensures r.Some? && !HasFileScheme(StripTrailingSlash(uri)) ==> NoneOf(r.value, PathSeparators)
  {
    var stripped := StripTrailingSlash(uri);
    var parts := Split(stripped, PathSeparators);
    if parts == [] then None
    else if HasFileScheme(stripped) then decode(parts[|parts| - 1])
    else Some(parts[|parts| - 1])
  }

  /** The cover file name without its extension (lines 213-216). */
  function CoverKey(trackName: string, albumName: string, albumArtistName: string): (key: string)
    ensures NoneOf(key, ForbiddenChars)
    ensures |key| <= |trackName| + |albumName| + |albumArtistName|
  {
    DeleteCharsClean(trackName + albumName + albumArtistName, ForbiddenChars);
    DeleteChars(trackName + albumName + albumArtistName, ForbiddenChars)
  }

  /** `String.format("%s/%s.PNG", directory, key)`. */
  function CoverPath(directory: string, key: string): (p: string)
    ensures |p| == |directory| + |key| + 5
    ensures p[..|directory|] == directory && p[|directory|] == '/'
    ensures p[|directory| + 1..] == key + CoverExtension
  {
    directory + "/" + key + CoverExtension
  }

  /** Where the cover of one source goes: the directory to create and the file to write. */
  datatype CoverTarget = CoverTarget(directory: string, file: string)

  /** The names of lines 165-218, then the target. `None` when an exception escapes: the
      track name cannot be recovered, or the cover directory is null (`endsWith` on null
      at line 200). */
  function ResolveCover(metadata: Fields, uri: string, coverDirectory: Option<string>,
                        decode: string -> Option<string>): (target: Option<CoverTarget>)
    ensures target.None? <==>
      coverDirectory.None? || (Get(metadata, TrackName).None? && FallbackTrackName(uri, decode).None?)
    ensures target.Some? ==> |target.value.file| > |target.value.directory|
  {
    var trackName := if Get(metadata, TrackName).Some? then Get(metadata, TrackName)
                     else FallbackTrackName(uri, decode);
    if trackName.None? || coverDirectory.None? then None
    else
      var albumName := Get(metadata, AlbumName).GetOr(UnknownAlbum);
      var albumArtistName := Get(metadata, AlbumArtistName).GetOr(UnknownArtist);
      var directory := StripTrailingSlash(coverDirectory.value);
      Some(CoverTarget(directory, CoverPath(directory, CoverKey(trackName.value, albumName, albumArtistName))))
  }

  // ---------------------------------------------------------------- the track name

  /** The fallback track name is the last non-empty "/" piece of the URI: the URI, its
      one stripped "/" aside, is `prefix + "/" + name` followed by any further "/"s
      (`tail`, which `split` drops, so "x/a//" gives "a"). The name is decoded exactly
      when the URI has the file scheme. */
  lemma FallbackIsLastSegment(uri: string, decode: string -> Option<string>, prefix: string, name: string,
                              tail: string)
    requires StripTrailingSlash(uri) == prefix + "/" + name + tail
    requires name != [] && NoneOf(name, PathSeparators) && AllOf(tail, PathSeparators)
    ensures HasFileScheme(StripTrailingSlash(uri)) ==> FallbackTrackName(uri, decode) == decode(name)
    ensures !HasFileScheme(StripTrailingSlash(uri)) ==> FallbackTrackName(uri, decode) == Some(name)
  {
    var s := prefix + "/" + name;
    assert s[|prefix|] == '/' && s[|prefix| + 1..] == name;
    assert s[|s| - 1] == name[|name| - 1];
    SplitIgnoresTrailingDelims(s, tail, PathSeparators);
    SplitLast(s, PathSeparators, |prefix| + 1);
  }

  /** A URI without any "/" but trailing ones is its own track name without them. */
  lemma FallbackOfBareName(uri: string, decode: string -> Option<string>, name: string, tail: string)
    requires StripTrailingSlash(uri) == name + tail
    requires NoneOf(name, PathSeparators) && AllOf(tail, PathSeparators) && (tail != [] ==> name != [])
    ensures HasFileScheme(StripTrailingSlash(uri)) ==> FallbackTrackName(uri, decode) == decode(name)
    ensures !HasFileScheme(StripTrailingSlash(uri)) ==> FallbackTrackName(uri, decode) == Some(name)
  {
    if tail != [] {
      SplitIgnoresTrailingDelims(name, tail, PathSeparators);
    } else {
      assert name + tail == name;
    }
  }

  /** One trailing "/" makes no difference to the track name. */
  lemma FallbackIgnoresTrailingSlash(uri: string, decode: string -> Option<string>)
    requires !EndsWithSlash(uri)
    ensures FallbackTrackName(uri + "/", decode) == FallbackTrackName(uri, decode)
  {
    assert StripTrailingSlash(uri + "/") == uri;
  }

  /** The track name cannot be recovered from a URI made of "/" only (a trailing "/"
      aside, such as "//"); any other URI without the file scheme gives one. */
  lemma FallbackFailsOnlyOnSlashes(uri: string, decode: string -> Option<string>)
    ensures var s := StripTrailingSlash(uri);
      s != [] && AllOf(s, PathSeparators) ==> FallbackTrackName(uri, decode).None?
    ensures var s := StripTrailingSlash(uri);
      !(s != [] && AllOf(s, PathSeparators)) && !HasFileScheme(s) ==> FallbackTrackName(uri, decode).Some?
  {
    SplitEmptyIff(StripTrailingSlash(uri), PathSeparators);
  }

  // ---------------------------------------------------------------- the cover path

  /** The key is the three names cleaned one by one and concatenated. */
  lemma CoverKeyConcatenates(trackName: string, albumName: string, albumArtistName: string)
    ensures CoverKey(trackName, albumName, albumArtistName)
      == DeleteChars(trackName, ForbiddenChars) + DeleteChars(albumName, ForbiddenChars)
         + DeleteChars(albumArtistName, ForbiddenChars)
  {
    DeleteCharsAppend(trackName + albumName, albumArtistName, ForbiddenChars);
    DeleteCharsAppend(trackName, albumName, ForbiddenChars);
  }

  /** Names without forbidden chars are concatenated unchanged. */
  lemma CoverKeyOfCleanNames(trackName: string, albumName: string, albumArtistName: string)
    requires NoneOf(trackName, ForbiddenChars) && NoneOf(albumName, ForbiddenChars)
    requires NoneOf(albumArtistName, ForbiddenChars)
    ensures CoverKey(trackName, albumName, albumArtistName) == trackName + albumName + albumArtistName
  {
    CoverKeyConcatenates(trackName, albumName, albumArtistName);
    DeleteCharsOfClean(trackName, ForbiddenChars);
    DeleteCharsOfClean(albumName, ForbiddenChars);
    DeleteCharsOfClean(albumArtistName, ForbiddenChars);
  }

  /** Album names of two words lose the space between them in a key. */
  lemma CoverKeyOfTwoWordNames(trackName: string, album1: string, album2: string,
                               artist1: string, artist2: string)
    requires NoneOf(album1, ForbiddenChars) && NoneOf(album2, ForbiddenChars)
    requires NoneOf(artist1, ForbiddenChars) && NoneOf(artist2, ForbiddenChars)
    ensures CoverKey(trackName, album1 + [' '] + album2, artist1 + [' '] + artist2)
      == DeleteChars(trackName, ForbiddenChars) + (album1 + album2) + (artist1 + artist2)
  {
    CoverKeyConcatenates(trackName, album1 + [' '] + album2, artist1 + [' '] + artist2);
    DeleteCharsBetween(album1, ' ', album2, ForbiddenChars);
    DeleteCharsBetween(artist1, ' ', artist2, ForbiddenChars);
  }

  /** A track without album tags is stored under its cleaned name followed by
      "UnknownAlbumUnknownArtist". */
  lemma CoverKeyOfDefaults(trackName: string)
    ensures CoverKey(trackName, UnknownAlbum, UnknownArtist)
      == DeleteChars(trackName, ForbiddenChars) + ("Unknown" + "Album") + ("Unknown" + "Artist")
  {
    assert UnknownAlbum == "Unknown" + [' '] + "Album";
    assert UnknownArtist == "Unknown" + [' '] + "Artist";
    CoverKeyOfTwoWordNames(trackName, "Unknown", "Album", "Unknown", "Artist");
  }

  /** The cover file lies directly in the directory: the path is the directory, one "/",
      and a last component `key + ".PNG"` with no "/" in it. */
  lemma CoverPathLastComponent(directory: string, key: string)
    requires NoneOf(key, PathSeparators)
    ensures var p := CoverPath(directory, key);
      && p[..|directory|] == directory && p[|directory|] == '/'
      && p[|directory| + 1..] == key + CoverExtension
      && NoneOf(key + CoverExtension, PathSeparators)
      && Split(p, PathSeparators) != []
      && Split(p, PathSeparators)[|Split(p, PathSeparators)| - 1] == key + CoverExtension
  {
    var p := CoverPath(directory, key);
    var last := key + CoverExtension;
    assert p == directory + "/" + last;
    assert p[|directory| + 1..] == last;
    assert p[|p| - 1] == 'G';
    SplitLast(p, PathSeparators, |directory| + 1);
  }

  /** Different keys in one directory, or one key in different directories, never share
      a cover file: the path gives back both. */
  lemma CoverPathInjective(directory1: string, key1: string, directory2: string, key2: string)
    requires NoneOf(key1, PathSeparators) && NoneOf(key2, PathSeparators)
    requires CoverPath(directory1, key1) == CoverPath(directory2, key2)
    ensures directory1 == directory2 && key1 == key2
  {
    CoverPathLastComponent(directory1, key1);
    CoverPathLastComponent(directory2, key2);
    var p := CoverPath(directory1, key1);
    assert |key1| == |key2|;
    assert key1 == (key1 + CoverExtension)[..|key1|] == (key2 + CoverExtension)[..|key2|] == key2;
    assert directory1 == p[..|directory1|] == p[..|directory2|] == directory2;
  }

  /** With a track name in the metadata, the URI decoder plays no part in the target. */
  lemma ResolveCoverIgnoresDecoder(metadata: Fields, uri: string, coverDirectory: Option<string>,
                                   decode1: string -> Option<string>, decode2: string -> Option<string>)
    requires Get(metadata, TrackName).Some?
    ensures ResolveCover(metadata, uri, coverDirectory, decode1)
         == ResolveCover(metadata, uri, coverDirectory, decode2)
  {
  }

  /** With a track name in the metadata, the cover file is the cleaned track name, album
      name (or "Unknown Album") and album artist name (or "Unknown Artist"), with ".PNG",
      in the cover directory without its trailing "/". */
  lemma ResolveCoverOfTitle(metadata: Fields, uri: string, coverDirectory: string,
                            decode: string -> Option<string>, trackName: string)
    requires Get(metadata, TrackName) == Some(trackName)
    ensures var directory := StripTrailingSlash(coverDirectory);
      var albumName := Get(metadata, AlbumName).GetOr(UnknownAlbum);
      var albumArtistName := Get(metadata, AlbumArtistName).GetOr(UnknownArtist);
      ResolveCover(metadata, uri, Some(coverDirectory), decode)
        == Some(CoverTarget(directory, directory + "/" + (DeleteChars(trackName, ForbiddenChars)
             + DeleteChars(albumName, ForbiddenChars) + DeleteChars(albumArtistName, ForbiddenChars))
             + CoverExtension))
  {
    CoverKeyConcatenates(trackName, Get(metadata, AlbumName).GetOr(UnknownAlbum),
                         Get(metadata, AlbumArtistName).GetOr(UnknownArtist));
  }

  /** Without a track name in the metadata, the name recovered from the URI takes its
      place in the cover file. */
  lemma ResolveCoverOfFallback(metadata: Fields, uri: string, coverDirectory: string,
                               decode: string -> Option<string>, trackName: string)
    requires Get(metadata, TrackName).None? && FallbackTrackName(uri, decode) == Some(trackName)
    ensures var directory := StripTrailingSlash(coverDirectory);
      var albumName := Get(metadata, AlbumName).GetOr(UnknownAlbum);
      var albumArtistName := Get(metadata, AlbumArtistName).GetOr(UnknownArtist);
      ResolveCover(metadata, uri, Some(coverDirectory), decode)
        == Some(CoverTarget(directory, directory + "/" + (DeleteChars(trackName, ForbiddenChars)
             + DeleteChars(albumName, ForbiddenChars) + DeleteChars(albumArtistName, ForbiddenChars))
             + CoverExtension))
  {
    CoverKeyConcatenates(trackName, Get(metadata, AlbumName).GetOr(UnknownAlbum),
                         Get(metadata, AlbumArtistName).GetOr(UnknownArtist));
  }

  /** A track without album tags has its cover stored as its cleaned name followed by
      "UnknownAlbumUnknownArtist.PNG". */
  lemma ResolveCoverOfDefaults(metadata: Fields, uri: string, coverDirectory: string,
                               decode: string -> Option<string>, trackName: string)
    requires Get(metadata, TrackName) == Some(trackName)
    requires Get(metadata, AlbumName).None? && Get(metadata, AlbumArtistName).None?
    ensures var directory := StripTrailingSlash(coverDirectory);
      ResolveCover(metadata, uri, Some(coverDirectory), decode)
        == Some(CoverTarget(directory, directory + "/" + (DeleteChars(trackName, ForbiddenChars)
             + ("Unknown" + "Album") + ("Unknown" + "Artist")) + CoverExtension))
  {
    CoverKeyOfDefaults(trackName);
  }

  /** Whichever way the track name is found, a resolved cover file is the cleaned track
      name, album name or "Unknown Album", and album artist name or "Unknown Artist". */
  lemma ResolveCoverOfNames(metadata: Fields, uri: string, coverDirectory: string,
                            decode: string -> Option<string>)
    requires ResolveCover(metadata, uri, Some(coverDirectory), decode).Some?
    ensures var target := ResolveCover(metadata, uri, Some(coverDirectory), decode).value;
      var directory := StripTrailingSlash(coverDirectory);
      var trackName := if Get(metadata, TrackName).Some? then Get(metadata, TrackName)
                       else FallbackTrackName(uri, decode);
      && trackName.Some?
      && target.directory == directory
      && target.file == directory + "/" + (DeleteChars(trackName.value, ForbiddenChars)
           + DeleteChars(Get(metadata, AlbumName).GetOr(UnknownAlbum), ForbiddenChars)
           + DeleteChars(Get(metadata, AlbumArtistName).GetOr(UnknownArtist), ForbiddenChars))
           + CoverExtension
  {
    if Get(metadata, TrackName).Some? {
      ResolveCoverOfTitle(metadata, uri, coverDirectory, decode, Get(metadata, TrackName).value);
    } else {
      ResolveCoverOfFallback(metadata, uri, coverDirectory, decode, FallbackTrackName(uri, decode).value);
    }
  }
}
