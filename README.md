# Harmonoid metadata retriever, modelled in Dafny

Harmonoid's Android side answers the Flutter method call "MetadataRetriever". It does four things:

1. Reads the tags of one audio source with `MediaMetadataRetriever`.
2. Normalises them into a metadata map (`MetadataRetrieverImplementation.getMetadata`).
3. Posts the map back to the caller. It posts at once, or only after the cover art is cached when `waitUntilAlbumArtIsSaved` is set.
4. Writes the embedded picture to `<coverDirectory>/<trackName><albumName><albumArtistName>.PNG`, with path-unsafe characters removed. It skips the write when that file already exists.

This project models that core. It is split into five modules:

- `JavaLang` (`java_lang.dfy`) models the `java.lang.String` operations the code relies on, with Java's semantics:
  - `trim` removes characters up to U+0020.
  - `split` on a one-character class with limit 0 drops trailing empty pieces.
  - `replaceAll` with an empty replacement.
  - The `toLowerCase().startsWith("file://")` scheme test.
- `Metadata` (`metadata.dfy`) models tag normalisation. `Normalized` is the specification. `GetMetadata` performs the same `put` calls in the source's order and is proved equal to it.
- `CoverArt` (`cover_art.dfy`) models the naming side of the cache:
  - the track name recovered from the URI;
  - the "Unknown Album" and "Unknown Artist" defaults;
  - the cleaned key and the cover path.
- `FileStore` (`file_store.dfy`) models the file system. `FileSystem` is a class whose `files` and `dirs` change in place. `SaveCover` is the existence-gated write of lines 220-237, proved against the function `SavedCover`.
- `Retriever` (`retriever.dfy`) models one request as the trace of events it produces: answers posted, the cover write attempted, resources released, or an exception escaping the background task. `HandleRequest` runs the steps on a `FileSystem`. It is proved to produce `Task`'s trace and `FsAfter`'s file system.

Conventions of the model:

- The metadata map is a `map<Field, Option<string>>`. A key mapped to `None` is a key `put` with the value null. A missing key is a key never `put`.
- Exceptions that the source catches are modelled as the value the catch block stores.
- Exceptions that escape the background task are modelled as the event `Escape`.

Some behaviours of the code are easy to miss. The model keeps them as the code has them:

- The plain tags (title, artist, album, …) are copied untrimmed.
- A missing plain tag is stored as a null value under a present key. The track keys are absent when their tags are, and the year falls back to the date.
- A blank year tag gives the year "" instead of falling back to the date.
- The cover extension is ".PNG".
- A caller that waits for the artwork gets no answer at all when an exception escapes. `EscapeLosesAnswer` proves this.

## Model

| member | source | states |
|---|---|---|
| JavaLang.Trim | android/app/src/main/kotlin/com/alexmercerind/harmonoid/MetadataRetriever.java:63 | `trim` never lengthens a string, and its result neither starts nor ends with a char at or below U+0020 |
| JavaLang.TrimStrips | android/app/src/main/kotlin/com/alexmercerind/harmonoid/MetadataRetriever.java:63 | `trim` removes exactly the leading and trailing chars at or below U+0020: it gives back the core between them |
| JavaLang.TrimBounds | android/app/src/main/kotlin/com/alexmercerind/harmonoid/MetadataRetriever.java:63 | `trim` returns "" exactly when every char is at most U+0020; otherwise its result starts and ends with a char above U+0020 |
| JavaLang.TrimKeepsNoneOf | android/app/src/main/kotlin/com/alexmercerind/harmonoid/MetadataRetriever.java:63 | trimming introduces no char: a string without "/" stays without "/" |
| JavaLang.TrimOfTrimmed | android/app/src/main/kotlin/com/alexmercerind/harmonoid/MetadataRetriever.java:86 | `trim` is the identity on a string with no trimmable char at either end |
| JavaLang.Split | android/app/src/main/kotlin/com/alexmercerind/harmonoid/MetadataRetriever.java:60 | no piece of a `split` contains a delimiter |
| JavaLang.JoinSegments | android/app/src/main/kotlin/com/alexmercerind/harmonoid/MetadataRetriever.java:60 | cutting at one separator, empty pieces kept, and joining again gives the string back |
| JavaLang.FirstIndexAt | android/app/src/main/kotlin/com/alexmercerind/harmonoid/MetadataRetriever.java:92 | the first-delimiter index is the unique index with no delimiter before it and one at it |
| JavaLang.SplitEmptyIff | android/app/src/main/kotlin/com/alexmercerind/harmonoid/MetadataRetriever.java:60-63 | `split` yields no pieces, so that `[0]` throws, exactly when the string is non-empty and made only of delimiters |
| JavaLang.SplitFirst | android/app/src/main/kotlin/com/alexmercerind/harmonoid/MetadataRetriever.java:63 | piece 0 of a non-empty split is the text before the first delimiter |
| JavaLang.SplitLast | android/app/src/main/kotlin/com/alexmercerind/harmonoid/MetadataRetriever.java:72 | when the string does not end with a delimiter, the last piece is the text after the last delimiter, and there are two pieces or more when a delimiter occurs |
| JavaLang.SplitIgnoresTrailingDelims | android/app/src/main/kotlin/com/alexmercerind/harmonoid/MetadataRetriever.java:60 | trailing delimiters after a non-delimiter make no difference to `split`, so `"4/"` cuts like `"4"` and `"4/20/"` like `"4/20"` |
| JavaLang.DeleteChars | android/app/src/main/kotlin/com/alexmercerind/harmonoid/MetadataRetriever.java:213-216 | `replaceAll` with an empty replacement never lengthens the string |
| JavaLang.DeleteCharsClean | android/app/src/main/kotlin/com/alexmercerind/harmonoid/MetadataRetriever.java:213-216 | no matched char is left after `replaceAll` |
| JavaLang.DeleteCharsOfClean | android/app/src/main/kotlin/com/alexmercerind/harmonoid/MetadataRetriever.java:213-216 | `replaceAll` leaves a string without matched chars unchanged |
| JavaLang.DeleteCharsKeeps | android/app/src/main/kotlin/com/alexmercerind/harmonoid/MetadataRetriever.java:213-216 | a char is in the result exactly when it is in the input and not matched |
| JavaLang.DeleteCharsAppend | android/app/src/main/kotlin/com/alexmercerind/harmonoid/MetadataRetriever.java:213-216 | removing chars from a concatenation is concatenating the cleaned parts |
| JavaLang.DeleteCharsBetween | android/app/src/main/kotlin/com/alexmercerind/harmonoid/MetadataRetriever.java:213-216 | one matched char between two clean strings is all that goes |
| JavaLang.ToLowerCase | android/app/src/main/kotlin/com/alexmercerind/harmonoid/MetadataRetriever.java:139 | lower-casing keeps the length, leaves no ASCII upper-case letter, and changes only ASCII upper-case letters |
| Metadata.Normalized | android/app/src/main/kotlin/com/alexmercerind/harmonoid/MetadataRetriever.java:43-106 | the returned map holds "uri" as given and the year derived from the year and date tags, and only the two track keys can be missing |
| Metadata.TrackFields | android/app/src/main/kotlin/com/alexmercerind/harmonoid/MetadataRetriever.java:51-82 | "trackNumber" is present exactly when the track-number tag is; "albumLength" exactly when either the track-number tag or NUM_TRACKS is; no other key is produced |
| Metadata.YearOf | android/app/src/main/kotlin/com/alexmercerind/harmonoid/MetadataRetriever.java:83-96 | a year tag always gives a year; no year and no date give null; the year is always trimmed; a year taken from the date contains no ".", "-" or "/" |
| Metadata.GetMetadata | android/app/src/main/kotlin/com/alexmercerind/harmonoid/MetadataRetriever.java:43-106 | the `put` sequence of `getMetadata` builds exactly the normalised map |
| Metadata.PutTrackFields | android/app/src/main/kotlin/com/alexmercerind/harmonoid/MetadataRetriever.java:53-82 | the first try/catch block, including the catch that nulls both entries, adds exactly the track entries to the map |
| Metadata.PutYear | android/app/src/main/kotlin/com/alexmercerind/harmonoid/MetadataRetriever.java:83-96 | the nested try/catch blocks store exactly the derived year and change no other key |
| Metadata.DerivedEntries | android/app/src/main/kotlin/com/alexmercerind/harmonoid/MetadataRetriever.java:51-96 | the track entries and the year of the map are the derived ones, and only the track keys can be missing |
| Metadata.UriEntry | android/app/src/main/kotlin/com/alexmercerind/harmonoid/MetadataRetriever.java:45 | "uri" holds the URI the source was read from |
| Metadata.CopiedFieldsVerbatim | android/app/src/main/kotlin/com/alexmercerind/harmonoid/MetadataRetriever.java:46-103 | each of the eleven plain keys is present and holds its tag untrimmed, or null when the tag is missing |
| Metadata.TrackKeysPresence | android/app/src/main/kotlin/com/alexmercerind/harmonoid/MetadataRetriever.java:55-77 | presence of "trackNumber" and "albumLength" in terms of the tags; every other key is always present |
| Metadata.TrackNumberIsFirstSegment | android/app/src/main/kotlin/com/alexmercerind/harmonoid/MetadataRetriever.java:60-63 | the track number is the tag's text before its first "/", trimmed, unless the tag is made only of "/" |
| Metadata.AlbumLengthIsLastSegment | android/app/src/main/kotlin/com/alexmercerind/harmonoid/MetadataRetriever.java:60-73 | without NUM_TRACKS, the album length is the trimmed text after the last "/" that is followed by something other than "/", so "4/20/" gives "20" |
| Metadata.SingleSegmentHasNoAlbumLength | android/app/src/main/kotlin/com/alexmercerind/harmonoid/MetadataRetriever.java:60-76 | without NUM_TRACKS, a tag without "/" except trailing ones ("4", "4/") gives the trimmed track number and a null album length |
| Metadata.NumTracksTakesPrecedence | android/app/src/main/kotlin/com/alexmercerind/harmonoid/MetadataRetriever.java:55-57 | a NUM_TRACKS value is the album length verbatim, whatever the track number, unless the track number is made only of "/" |
| Metadata.SlashOnlyTrackNumberClearsBoth | android/app/src/main/kotlin/com/alexmercerind/harmonoid/MetadataRetriever.java:79-82 | a track number made only of "/" throws, and the catch sets both entries to null, NUM_TRACKS notwithstanding |
| Metadata.TrackFieldsHaveNoSlash | android/app/src/main/kotlin/com/alexmercerind/harmonoid/MetadataRetriever.java:60-73 | "trackNumber" never holds a composite containing "/", and neither does "albumLength" unless it came from NUM_TRACKS |
| Metadata.TrackOfTotal | android/app/src/main/kotlin/com/alexmercerind/harmonoid/MetadataRetriever.java:60-73 | "n/total" gives the track number n and the album length total, both trimmed |
| Metadata.YearTagWins | android/app/src/main/kotlin/com/alexmercerind/harmonoid/MetadataRetriever.java:86 | a present year tag, trimmed, is the year even when blank, and the date is ignored |
| Metadata.YearFromDate | android/app/src/main/kotlin/com/alexmercerind/harmonoid/MetadataRetriever.java:87-95 | without a year tag, the year is the date's text before its first ".", "-" or "/", trimmed; null when the date is missing or made only of separators |
| Metadata.YearOfDelimitedDate | android/app/src/main/kotlin/com/alexmercerind/harmonoid/MetadataRetriever.java:92 | a date such as "2002.07.23" gives the year "2002" |
| CoverArt.HasFileScheme | android/app/src/main/kotlin/com/alexmercerind/harmonoid/MetadataRetriever.java:139 | the scheme test holds exactly when the first seven chars, ASCII lower-cased, are "file://" |
| CoverArt.StripTrailingSlash | android/app/src/main/kotlin/com/alexmercerind/harmonoid/MetadataRetriever.java:200-205 | exactly one trailing "/" is removed, and a string without one is unchanged |
| CoverArt.FallbackTrackName | android/app/src/main/kotlin/com/alexmercerind/harmonoid/MetadataRetriever.java:170-188 | a recovered track name that is not URL-decoded contains no "/" |
| CoverArt.CoverKey | android/app/src/main/kotlin/com/alexmercerind/harmonoid/MetadataRetriever.java:213-216 | the key has none of \ / : * ? " < > \| or space, and is no longer than the three names |
| CoverArt.CoverPath | android/app/src/main/kotlin/com/alexmercerind/harmonoid/MetadataRetriever.java:207-210 | the path is the directory, one "/", and key + ".PNG" |
| CoverArt.ResolveCover | android/app/src/main/kotlin/com/alexmercerind/harmonoid/MetadataRetriever.java:165-218 | the cover target fails exactly when the cover directory is null or the track name can be neither read nor recovered; the file path extends the directory |
| CoverArt.FallbackIsLastSegment | android/app/src/main/kotlin/com/alexmercerind/harmonoid/MetadataRetriever.java:170-188 | the recovered track name is the URI's last non-empty "/" piece ("x/a//" gives "a"), decoded exactly for `file://` URIs |
| CoverArt.FallbackOfBareName | android/app/src/main/kotlin/com/alexmercerind/harmonoid/MetadataRetriever.java:170-188 | a URI without "/" except trailing ones is its own track name without them, decoded for `file://` |
| CoverArt.FallbackIgnoresTrailingSlash | android/app/src/main/kotlin/com/alexmercerind/harmonoid/MetadataRetriever.java:170-173 | one trailing "/" does not change the recovered track name |
| CoverArt.FallbackFailsOnlyOnSlashes | android/app/src/main/kotlin/com/alexmercerind/harmonoid/MetadataRetriever.java:170-175 | recovery throws on a URI of two or more "/" and nothing else (such as "//"; "/" itself gives the name ""); any other non-`file://` URI yields a name |
| CoverArt.CoverKeyConcatenates | android/app/src/main/kotlin/com/alexmercerind/harmonoid/MetadataRetriever.java:213-216 | the key is the three names cleaned one by one and concatenated |
| CoverArt.CoverKeyOfCleanNames | android/app/src/main/kotlin/com/alexmercerind/harmonoid/MetadataRetriever.java:213-216 | names without forbidden chars are concatenated unchanged |
| CoverArt.CoverKeyOfTwoWordNames | android/app/src/main/kotlin/com/alexmercerind/harmonoid/MetadataRetriever.java:213-216 | two-word album and artist names lose their inner space |
| CoverArt.CoverKeyOfDefaults | android/app/src/main/kotlin/com/alexmercerind/harmonoid/MetadataRetriever.java:191-198 | the key of a track name with the two default names is the cleaned track name followed by "UnknownAlbum" and "UnknownArtist" |
| CoverArt.CoverPathLastComponent | android/app/src/main/kotlin/com/alexmercerind/harmonoid/MetadataRetriever.java:207-210 | the cover file lies directly in the directory, and its last path component is key + ".PNG" |
| CoverArt.CoverPathInjective | android/app/src/main/kotlin/com/alexmercerind/harmonoid/MetadataRetriever.java:207-218 | different (directory, key) pairs never share a cover file |
| CoverArt.ResolveCoverIgnoresDecoder | android/app/src/main/kotlin/com/alexmercerind/harmonoid/MetadataRetriever.java:165-189 | with a track name in the metadata, URL decoding plays no part in the cover target |
| CoverArt.ResolveCoverOfTitle | android/app/src/main/kotlin/com/alexmercerind/harmonoid/MetadataRetriever.java:165-218 | with a track name in the metadata, the cover file is the directory without its trailing "/", then the cleaned track name, album name or "Unknown Album", and album artist name or "Unknown Artist", then ".PNG" |
| CoverArt.ResolveCoverOfFallback | android/app/src/main/kotlin/com/alexmercerind/harmonoid/MetadataRetriever.java:167-218 | without a track name, the name recovered from the URI takes its place in the cover file |
| CoverArt.ResolveCoverOfDefaults | android/app/src/main/kotlin/com/alexmercerind/harmonoid/MetadataRetriever.java:191-218 | a track without album tags is cached as its cleaned name followed by "UnknownAlbum", "UnknownArtist" and ".PNG" |
| CoverArt.ResolveCoverOfNames | android/app/src/main/kotlin/com/alexmercerind/harmonoid/MetadataRetriever.java:165-218 | any resolved cover file is made of the track name (or the recovered one) and the album names (or their defaults), cleaned |
| FileStore.Written | android/app/src/main/kotlin/com/alexmercerind/harmonoid/MetadataRetriever.java:230-232 | what reaches the file is a prefix of the picture; all of it without a fault |
| FileStore.SavedCover | android/app/src/main/kotlin/com/alexmercerind/harmonoid/MetadataRetriever.java:220-237 | the write is skipped when the file exists or there is no picture; otherwise the cover directory is created and the file holds the picture, or a prefix of it when a write fails, and no file when `createNewFile` throws; no other file changes |
| FileStore.FileSystem.FileExists | android/app/src/main/kotlin/com/alexmercerind/harmonoid/MetadataRetriever.java:220 | `exists` is true for a file or a directory |
| FileStore.FileSystem.Mkdirs | android/app/src/main/kotlin/com/alexmercerind/harmonoid/MetadataRetriever.java:226 | the directory is there afterwards, and the files are untouched |
| FileStore.FileSystem.CreateNewFile | android/app/src/main/kotlin/com/alexmercerind/harmonoid/MetadataRetriever.java:227-229 | an empty file appears only where nothing was, and a failure changes nothing |
| FileStore.FileSystem.WriteFile | android/app/src/main/kotlin/com/alexmercerind/harmonoid/MetadataRetriever.java:230-232 | the file is replaced by the bytes that get written |
| FileStore.SaveCover | android/app/src/main/kotlin/com/alexmercerind/harmonoid/MetadataRetriever.java:220-237 | the in-place steps leave the file system exactly as `SavedCover` describes |
| FileStore.SecondSaveChangesNothing | android/app/src/main/kotlin/com/alexmercerind/harmonoid/MetadataRetriever.java:220 | once a cover file exists, later writes for it change nothing, whatever picture or fault they meet |
| FileStore.TruncatedCoverIsKept | android/app/src/main/kotlin/com/alexmercerind/harmonoid/MetadataRetriever.java:220-236 | a cover cut short by a failing write stays cut short on later requests |
| FileStore.FailedCreateIsRetried | android/app/src/main/kotlin/com/alexmercerind/harmonoid/MetadataRetriever.java:227-236 | a failing `createNewFile` leaves no file, so the next request writes the whole picture |
| Retriever.Waits | android/app/src/main/kotlin/com/alexmercerind/harmonoid/MetadataRetriever.java:122-125 | the caller waits exactly when it passed `true`; a missing flag means no wait |
| Retriever.Opens | android/app/src/main/kotlin/com/alexmercerind/harmonoid/MetadataRetriever.java:139-142 | a source without the `file://` scheme always opens (it may still be rejected by the decoder); a `file://` source opens exactly when its stream does |
| Retriever.UriOnly | android/app/src/main/kotlin/com/alexmercerind/harmonoid/MetadataRetriever.java:260-261 | the fallback map holds only "uri" |
| Retriever.Answered | android/app/src/main/kotlin/com/alexmercerind/harmonoid/MetadataRetriever.java:147-254 | once the source is read, the cover attempt goes to the resolved target, and the release happens exactly when the target resolves |
| Retriever.Task | android/app/src/main/kotlin/com/alexmercerind/harmonoid/MetadataRetriever.java:131-265 | a task attempts a cover write only for a source it reads, and only to that source's resolved target |
| Retriever.FsAfter | android/app/src/main/kotlin/com/alexmercerind/harmonoid/MetadataRetriever.java:220-237 | a task never removes or changes a file that existed before it, and never removes a directory; an unread source leaves the file system alone |
| Retriever.TrackNameOf | android/app/src/main/kotlin/com/alexmercerind/harmonoid/MetadataRetriever.java:165-189 | the track name is the metadata's, or else the one recovered from the URI |
| Retriever.CoverTargetOf | android/app/src/main/kotlin/com/alexmercerind/harmonoid/MetadataRetriever.java:165-218 | the in-order steps compute exactly `ResolveCover` |
| Retriever.PutAgain | android/app/src/main/kotlin/com/alexmercerind/harmonoid/MetadataRetriever.java:144 | putting "uri" again with the value it already holds leaves the map as it was |
| Retriever.AnswerAndCache | android/app/src/main/kotlin/com/alexmercerind/harmonoid/MetadataRetriever.java:147-254 | the early answer, cover write, release and late answer produce `Answered`'s trace, and change the file system only through `SavedCover` |
| Retriever.HandleRequest | android/app/src/main/kotlin/com/alexmercerind/harmonoid/MetadataRetriever.java:120-265 | one request produces exactly `Task`'s events and leaves the file system as `FsAfter` says |
| Retriever.ResponsesAppend | android/app/src/main/kotlin/com/alexmercerind/harmonoid/MetadataRetriever.java:147-162 | answers add up over the parts of a trace |
| Retriever.AnsweredCount | android/app/src/main/kotlin/com/alexmercerind/harmonoid/MetadataRetriever.java:147-254 | once the source is read, there is exactly one answer, except none when the caller waits and the cover target throws; an exception escapes exactly when the target does not resolve |
| Retriever.AnsweredOrder | android/app/src/main/kotlin/com/alexmercerind/harmonoid/MetadataRetriever.java:147-162 | every answer carries the metadata; without waiting it comes first and alone; the whole trace in each mode: answer, cover attempt, release without waiting; cover attempt, release, answer when waiting; and only the early answer (if any) before the escape when the target throws |
| Retriever.ResponseCount | android/app/src/main/kotlin/com/alexmercerind/harmonoid/MetadataRetriever.java:131-265 | a request is never answered twice, and is answered exactly once unless an exception escapes |
| Retriever.EscapeLosesAnswer | android/app/src/main/kotlin/com/alexmercerind/harmonoid/MetadataRetriever.java:147-162 | a waiting caller gets no answer exactly when an exception escapes; a non-waiting caller gets none only when it escapes before the source is read |
| Retriever.AnswerBeforeCover | android/app/src/main/kotlin/com/alexmercerind/harmonoid/MetadataRetriever.java:122-125 | with the flag missing or false, the metadata is posted before any cover work, and only once |
| Retriever.AnswerAfterCover | android/app/src/main/kotlin/com/alexmercerind/harmonoid/MetadataRetriever.java:250-254 | with the flag set and a resolvable target, the answer comes last, after the cover attempt and the release |
| Retriever.FallbackOnOpenFailure | android/app/src/main/kotlin/com/alexmercerind/harmonoid/MetadataRetriever.java:258-265 | a `file://` source that fails to open is answered at once with the "uri"-only map, flag or not, and the file system is untouched |
| Retriever.AnswerPayload | android/app/src/main/kotlin/com/alexmercerind/harmonoid/MetadataRetriever.java:146-161 | every answer is either the normalised metadata of the source or the fallback map |
| Retriever.RepeatedRequestKeepsFiles | android/app/src/main/kotlin/com/alexmercerind/harmonoid/MetadataRetriever.java:220 | repeating a request whose cover was written leaves the file system unchanged |
| Retriever.NameEntries | android/app/src/main/kotlin/com/alexmercerind/harmonoid/MetadataRetriever.java:46-49 | the title, album and album artist entries the cover name uses are the source's tags |
| Retriever.CoverFileOfTags | android/app/src/main/kotlin/com/alexmercerind/harmonoid/MetadataRetriever.java:165-237 | every cover attempt of a task writes to the file made of the source's title (or the name recovered from its URI), album tag or "Unknown Album", and album artist tag or "Unknown Artist", cleaned, with ".PNG" |

## Left out

- The Android `MediaMetadataRetriever` decoder is not part of this model. Its tags, its picture, and whether it accepts a source (`Source`) are inputs.
- `URLDecoder.decode` is a parameter `decode`. Its result is `None` where it throws `IllegalArgumentException`.
- The Flutter plumbing is not modelled: the `Handler`/`Looper` posting, the `CompletableFuture` thread, `result.notImplemented()` for other method names, and logging. Posting is the `Respond` event.
- Concurrency between requests is not modelled: two tasks racing on the same cover file are outside the model. Tasks are taken one at a time.
- `Uri.parse(...).getPath()` and the `FileInputStream` it opens are not modelled. Whether a `file://` source opens (`Source.opens`) is an input, and so is an `IOException` from `getFD`.
- `getEmbeddedPicture` is called twice in the source. The model assumes both calls return the same picture.
- FileStore.FileSystem.Mkdirs: adds only the given directory. The parent directories that `File.mkdirs` also creates are not modelled, and neither is a failure of `mkdirs`.
- The fault points that are modelled (`IoFault`) are `createNewFile`, opening the stream, and writing.
- A failing `close` after a full write is not modelled.
- Release failures are not modelled. They are caught and change nothing visible.
- `java.io.File` path normalisation, such as collapsing repeated "/", is not modelled. Paths are compared as strings.
- JavaLang.ToLowerCase: maps only ASCII letters. Java's full Unicode case mapping is not modelled; the result only feeds the "file://" prefix test.
- FileStore.SavedCover: requires the cover directory and the cover file paths to differ. This holds for every target `ResolveCover` produces, since the file is longer than the directory.
- FileStore.SaveCover: requires the cover directory and the cover file paths to differ, as for `SavedCover`.
