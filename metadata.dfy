/** `MetadataRetrieverImplementation.getMetadata`: turns the raw tag values the Android
    decoder extracts from one source into the metadata map handed back to the caller. */
module Metadata {
  import opened JavaLang

  /** The `MediaMetadataRetriever.METADATA_KEY_*` constants the retriever asks for. */
  datatype TagKey =
    | KeyTitle | KeyArtist | KeyAlbum | KeyAlbumArtist | KeyCdTrackNumber | KeyNumTracks
    | KeyYear | KeyDate | KeyGenre | KeyAuthor | KeyWriter | KeyDiscNumber | KeyMimeType
    | KeyDuration | KeyBitrate

  /** The tags of one source; `extractMetadata` returns null for a key missing here. */
  type RawTags = map<TagKey, string>

  /** The keys of the metadata map: "uri", "trackName", "trackArtistNames", "albumName",
      "albumArtistName", "trackNumber", "albumLength", "year", "genre", "authorName",
      "writerName", "discNumber", "mimeType", "duration", "bitrate". */
  datatype Field =
    | Uri | TrackName | TrackArtistNames | AlbumName | AlbumArtistName | TrackNumber
    | AlbumLength | Year | Genre | AuthorName | WriterName | DiscNumber | MimeType
    | Duration | Bitrate

  /** The metadata map: a present key holds a string or null (`None`). */
  type Fields = map<Field, Option<string>>

  /** `extractMetadata(key)`. */
  function Tag(tags: RawTags, key: TagKey): Option<string> {
    if key in tags then Some(tags[key]) else None
  }

  /** `HashMap.get`: null for a missing key as for a null value. */
  function Get(m: Fields, f: Field): Option<string> {
    if f in m then m[f] else None
  }

  /** The pattern "/" that cuts a track number such as "4/20". */
  const TrackSeparators: set<char> := {'/'}

  /** The pattern "[.\\-/]" that cuts a date such as "2002.07.23". */
  const DateSeparators: set<char> := {'.', '-', '/'}

  /** The "trackNumber" and "albumLength" entries (lines 51-82). A NUM_TRACKS value is
      kept verbatim; a track number is cut at "/", its first piece trimmed is the track
      number and, without NUM_TRACKS, its last piece trimmed is the album length when
      there are two pieces or more. A track number that splits into nothing throws
      inside the try block, and the catch sets both entries to null. */
  function TrackFields(trackNumber: Option<string>, numTracks: Option<string>): (m: Fields)
    ensures TrackNumber in m <==> trackNumber.Some?
    ensures AlbumLength in m <==> trackNumber.Some? || numTracks.Some?
    ensures forall f :: f in m ==> f == TrackNumber || f == AlbumLength
  {
    match trackNumber
    case None =>
      if numTracks.Some? then map[AlbumLength := numTracks] else map[]
    case Some(t) =>
      var parts := Split(t, TrackSeparators);
      if parts == [] then map[TrackNumber := None, AlbumLength := None]
      else
        map[TrackNumber := Some(Trim(parts[0])),
            AlbumLength :=
              if numTracks.Some? then numTracks
              else if |parts| > 1 then Some(Trim(parts[|parts| - 1]))
              else None]
  }

  /** The "year" entry (lines 83-96): the year tag trimmed whenever it is there, even
      blank; otherwise the first piece of the date tag cut at ".", "-" or "/", trimmed;
      null when both tags are missing or the date splits into nothing. */
  function YearOf(year: Option<string>, date: Option<string>): (r: Option<string>)
    ensures year.Some? ==> r.Some?
    ensures year.None? && date.None? ==> r.None?
    ensures r.Some? ==> r.value == [] || (!IsTrimmable(r.value[0]) && !IsTrimmable(r.value[|r.value| - 1]))
    ensures year.None? && r.Some? ==> NoneOf(r.value, DateSeparators)
  {
    if year.Some? then Some(Trim(year.value))
    else if date.None? then None
    else
      var parts := Split(date.value, DateSeparators);
      if parts == [] then None
      else
        TrimKeepsNoneOf(parts[0], DateSeparators);
        Some(Trim(parts[0]))
  }

  /** The tag a plain entry of the metadata map is copied from, if it is one. */
  function CopiedTag(f: Field): Option<TagKey> {
    match f
    case TrackName => Some(KeyTitle)
    case TrackArtistNames => Some(KeyArtist)
    case AlbumName => Some(KeyAlbum)
    case AlbumArtistName => Some(KeyAlbumArtist)
    case Genre => Some(KeyGenre)
    case AuthorName => Some(KeyAuthor)
    case WriterName => Some(KeyWriter)
    case DiscNumber => Some(KeyDiscNumber)
    case MimeType => Some(KeyMimeType)
    case Duration => Some(KeyDuration)
    case Bitrate => Some(KeyBitrate)
    case _ => None
  }

  /** The metadata map, given its track entries and its year already worked out: the
      URI and the plain tags, the track entries, the year, then the other plain tags. */
  function Assemble(uri: string, tags: RawTags, track: Fields, year: Option<string>): Fields {
    (map[Uri := Some(uri), TrackName := Tag(tags, KeyTitle)]
      [TrackArtistNames := Tag(tags, KeyArtist)]
      [AlbumName := Tag(tags, KeyAlbum)]
      [AlbumArtistName := Tag(tags, KeyAlbumArtist)] + track)
      [Year := year]
      [Genre := Tag(tags, KeyGenre)]
      [AuthorName := Tag(tags, KeyAuthor)]
      [WriterName := Tag(tags, KeyWriter)]
      [DiscNumber := Tag(tags, KeyDiscNumber)]
      [MimeType := Tag(tags, KeyMimeType)]
      [Duration := Tag(tags, KeyDuration)]
      [Bitrate := Tag(tags, KeyBitrate)]
  }

  /** The map `getMetadata` returns for a source read from `uri`: "uri" is the URI, the
      year is `YearOf` the year and date tags, and only the track keys can be missing. */
  function Normalized(uri: string, tags: RawTags): (m: Fields)
    ensures Uri in m && m[Uri] == Some(uri)
    ensures Year in m && m[Year] == YearOf(Tag(tags, KeyYear), Tag(tags, KeyDate))
    ensures forall g :: g !in m ==> g == TrackNumber || g == AlbumLength
  {
    var track := TrackFields(Tag(tags, KeyCdTrackNumber), Tag(tags, KeyNumTracks));
    var year := YearOf(Tag(tags, KeyYear), Tag(tags, KeyDate));
    AssembleDerived(uri, tags, track, year);
    AssembleUri(uri, tags, track, year);
    Assemble(uri, tags, track, year)
  }

  /** The track entries and the year of the metadata map are those given; every other
      key is present. */
  lemma AssembleDerived(uri: string, tags: RawTags, track: Fields, year: Option<string>)
    requires forall g :: g in track ==> g == TrackNumber || g == AlbumLength
    ensures var m := Assemble(uri, tags, track, year);
      && (TrackNumber in m <==> TrackNumber in track)
      && (AlbumLength in m <==> AlbumLength in track)
      && (TrackNumber in m ==> m[TrackNumber] == track[TrackNumber])
      && (AlbumLength in m ==> m[AlbumLength] == track[AlbumLength])
      && Year in m && m[Year] == year
      && forall g :: g !in m ==> g == TrackNumber || g == AlbumLength
  {
  }

  /** "uri" is the URI given. */
  lemma AssembleUri(uri: string, tags: RawTags, track: Fields, year: Option<string>)
    requires forall g :: g in track ==> g == TrackNumber || g == AlbumLength
    ensures var m := Assemble(uri, tags, track, year); Uri in m && m[Uri] == Some(uri)
  {
  }

  /** The plain entries do not depend on the track entries or the year. */
  lemma AssemblePlain(uri: string, tags: RawTags, track: Fields, year: Option<string>, f: Field)
    requires forall g :: g in track ==> g == TrackNumber || g == AlbumLength
    requires CopiedTag(f).Some?
    ensures var m := Assemble(uri, tags, track, year); f in m && m[f] == Tag(tags, CopiedTag(f).value)
  {
  }

  /** `getMetadata`, one `put` after another as the source does them. */
  method GetMetadata(uri: string, tags: RawTags) returns (metadata: Fields)
    ensures metadata == Normalized(uri, tags)
  {
    metadata := map[];
    metadata := metadata[Uri := Some(uri)];
    metadata := metadata[TrackName := Tag(tags, KeyTitle)];
    metadata := metadata[TrackArtistNames := Tag(tags, KeyArtist)];
    metadata := metadata[AlbumName := Tag(tags, KeyAlbum)];
    metadata := metadata[AlbumArtistName := Tag(tags, KeyAlbumArtist)];
    metadata := PutTrackFields(metadata, Tag(tags, KeyCdTrackNumber), Tag(tags, KeyNumTracks));
    metadata := PutYear(metadata, Tag(tags, KeyYear), Tag(tags, KeyDate));
    metadata := metadata[Genre := Tag(tags, KeyGenre)];
    metadata := metadata[AuthorName := Tag(tags, KeyAuthor)];
    metadata := metadata[WriterName := Tag(tags, KeyWriter)];
    metadata := metadata[DiscNumber := Tag(tags, KeyDiscNumber)];
    metadata := metadata[MimeType := Tag(tags, KeyMimeType)];
    metadata := metadata[Duration := Tag(tags, KeyDuration)];
    metadata := metadata[Bitrate := Tag(tags, KeyBitrate)];
  }

  /** Putting both track entries, in either order, is merging them in. */
  lemma PutBoth(m: Fields, trackNumber: Option<string>, albumLength: Option<string>)
    ensures m[TrackNumber := trackNumber][AlbumLength := albumLength]
      == m + map[TrackNumber := trackNumber, AlbumLength := albumLength]
    ensures m[AlbumLength := albumLength][TrackNumber := trackNumber]
      == m + map[TrackNumber := trackNumber, AlbumLength := albumLength]
  {
  }

  /** The first try block of `getMetadata` (lines 53-82), on a map that has no
      "trackNumber" or "albumLength" key yet. */
  method PutTrackFields(metadata: Fields, trackNumber: Option<string>, albumLength: Option<string>)
    returns (result: Fields)
    requires TrackNumber !in metadata && AlbumLength !in metadata
    ensures result == metadata + TrackFields(trackNumber, albumLength)
  {
    result := metadata;
    // `thrown` records the one exception the try block can raise: reading piece 0 of
    // an empty split.
    var thrown := false;
    if albumLength.Some? {
      result := result[AlbumLength := albumLength];
    }
    if trackNumber.Some? {
      var trackNumberData := Split(trackNumber.value, TrackSeparators);
      if |trackNumberData| == 0 {
        thrown := true;
      } else {
        var first := Trim(trackNumberData[0]);
        result := result[TrackNumber := Some(first)];
        if AlbumLength !in result {
          if |trackNumberData| > 1 {
            var last := Trim(trackNumberData[|trackNumberData| - 1]);
            result := result[AlbumLength := Some(last)];
            PutBoth(metadata, Some(first), Some(last));
          } else {
            result := result[AlbumLength := None];
            PutBoth(metadata, Some(first), None);
          }
        } else {
          PutBoth(metadata, Some(first), albumLength);
        }
      }
    } else {
      assert metadata + map[] == metadata;
    }
    if thrown {
      result := result[TrackNumber := None];
      result := result[AlbumLength := None];
      PutBoth(metadata, None, None);
    }
  }

  /** The second try block of `getMetadata` (lines 83-96): `year.trim()` throws on a
      null year, `date.split(...)` on a null date, and reading piece 0 of an empty split
      throws too; each falls through to the next catch. */
  method PutYear(metadata: Fields, year: Option<string>, date: Option<string>) returns (result: Fields)
    ensures result == metadata[Year := YearOf(year, date)]
  {
    if year.Some? {
      result := metadata[Year := Some(Trim(year.value))];
    } else if date.Some? && |Split(date.value, DateSeparators)| > 0 {
      result := metadata[Year := Some(Trim(Split(date.value, DateSeparators)[0]))];
    } else {
      result := metadata[Year := None];
    }
  }

  /** The "trackNumber" and "albumLength" entries of the result are those of `TrackFields`,
      its "year" entry is `YearOf`, and no other key is missing. */
  lemma DerivedEntries(uri: string, tags: RawTags)
    ensures var m := Normalized(uri, tags);
      var track := TrackFields(Tag(tags, KeyCdTrackNumber), Tag(tags, KeyNumTracks));
      && (TrackNumber in m <==> TrackNumber in track)
      && (AlbumLength in m <==> AlbumLength in track)
      && (TrackNumber in m ==> m[TrackNumber] == track[TrackNumber])
      && (AlbumLength in m ==> m[AlbumLength] == track[AlbumLength])
      && Year in m && m[Year] == YearOf(Tag(tags, KeyYear), Tag(tags, KeyDate))
      && forall g :: g !in m ==> g == TrackNumber || g == AlbumLength
  {
    AssembleDerived(uri, tags, TrackFields(Tag(tags, KeyCdTrackNumber), Tag(tags, KeyNumTracks)),
                    YearOf(Tag(tags, KeyYear), Tag(tags, KeyDate)));
  }

  // ---------------------------------------------------------------- properties

  /** "uri" is the URI the source was read from. */
  lemma UriEntry(uri: string, tags: RawTags)
    ensures var m := Normalized(uri, tags); Uri in m && m[Uri] == Some(uri)
  {
  }

  /** A plain entry is its tag copied untrimmed; a missing tag gives a null value under
      a present key. */
  lemma CopiedFieldsVerbatim(uri: string, tags: RawTags, f: Field)
    requires CopiedTag(f).Some?
    ensures var m := Normalized(uri, tags); f in m && m[f] == Tag(tags, CopiedTag(f).value)
  {
    AssemblePlain(uri, tags, TrackFields(Tag(tags, KeyCdTrackNumber), Tag(tags, KeyNumTracks)),
                  YearOf(Tag(tags, KeyYear), Tag(tags, KeyDate)), f);
  }

  /** "trackNumber" is there exactly when the track-number tag is; "albumLength" exactly
      when the track-number tag or the NUM_TRACKS tag is. No other key is ever missing. */
  lemma TrackKeysPresence(uri: string, tags: RawTags)
    ensures var m := Normalized(uri, tags);
      && (TrackNumber in m <==> KeyCdTrackNumber in tags)
      && (AlbumLength in m <==> KeyCdTrackNumber in tags || KeyNumTracks in tags)
      && forall f :: f !in m ==> f == TrackNumber || f == AlbumLength
  {
    DerivedEntries(uri, tags);
  }

  /** The track number is the text before the first "/" of the tag, trimmed. */
  lemma TrackNumberIsFirstSegment(uri: string, tags: RawTags)
    requires KeyCdTrackNumber in tags
    requires !(tags[KeyCdTrackNumber] != [] && AllOf(tags[KeyCdTrackNumber], TrackSeparators))
    ensures var t := tags[KeyCdTrackNumber];
      Get(Normalized(uri, tags), TrackNumber) == Some(Trim(t[..FirstIndex(t, TrackSeparators)]))
  {
    DerivedEntries(uri, tags);
    var t := tags[KeyCdTrackNumber];
    SplitEmptyIff(t, TrackSeparators);
    SplitFirst(t, TrackSeparators);
  }

  /** Without NUM_TRACKS, a track number "n/m" gives the album length "m" trimmed. The tag
      is `core` followed by any number of "/" (`tail`), which `split` drops, so "4/20/"
      gives "20"; the album length is the text of `core` after its last "/", which
      starts at `i`. */
  lemma AlbumLengthIsLastSegment(uri: string, tags: RawTags, core: string, tail: string, i: nat)
    requires KeyNumTracks !in tags && KeyCdTrackNumber in tags
    requires tags[KeyCdTrackNumber] == core + tail && AllOf(tail, TrackSeparators)
    requires 0 < i < |core| && core[i - 1] == '/' && NoneOf(core[i..], TrackSeparators)
    ensures Get(Normalized(uri, tags), AlbumLength) == Some(Trim(core[i..]))
  {
    DerivedEntries(uri, tags);
    assert core[|core| - 1] == core[i..][|core| - 1 - i];
    SplitIgnoresTrailingDelims(core, tail, TrackSeparators);
    SplitLast(core, TrackSeparators, i);
  }

  /** Without NUM_TRACKS, a tag with no "/" except trailing ones (such as "4" or "4/") is
      the track number, trimmed, and the album length is null. */
  lemma SingleSegmentHasNoAlbumLength(uri: string, tags: RawTags, core: string, tail: string)
    requires KeyNumTracks !in tags && KeyCdTrackNumber in tags
    requires tags[KeyCdTrackNumber] == core + tail
    requires NoneOf(core, TrackSeparators) && AllOf(tail, TrackSeparators) && (tail != [] ==> core != [])
    ensures var m := Normalized(uri, tags);
      Get(m, TrackNumber) == Some(Trim(core)) && AlbumLength in m && m[AlbumLength] == None
  {
    DerivedEntries(uri, tags);
    if tail != [] {
      SplitIgnoresTrailingDelims(core, tail, TrackSeparators);
    } else {
      assert core + tail == core;
    }
  }

  /** A NUM_TRACKS value is the album length, verbatim, whatever the track number says,
      unless the track number splits into nothing. */
  lemma NumTracksTakesPrecedence(uri: string, tags: RawTags)
    requires KeyNumTracks in tags
    requires KeyCdTrackNumber in tags ==>
      !(tags[KeyCdTrackNumber] != [] && AllOf(tags[KeyCdTrackNumber], TrackSeparators))
    ensures var m := Normalized(uri, tags);
      AlbumLength in m && m[AlbumLength] == Some(tags[KeyNumTracks])
  {
    DerivedEntries(uri, tags);
    if KeyCdTrackNumber in tags {
      SplitEmptyIff(tags[KeyCdTrackNumber], TrackSeparators);
    }
  }

  /** A track number made of "/" only (such as "/") makes the catch block set both
      entries to null, discarding a NUM_TRACKS value already stored. */
  lemma SlashOnlyTrackNumberClearsBoth(uri: string, tags: RawTags)
    requires KeyCdTrackNumber in tags
    requires tags[KeyCdTrackNumber] != [] && AllOf(tags[KeyCdTrackNumber], TrackSeparators)
    ensures var m := Normalized(uri, tags);
      TrackNumber in m && m[TrackNumber] == None && AlbumLength in m && m[AlbumLength] == None
  {
    DerivedEntries(uri, tags);
    SplitEmptyIff(tags[KeyCdTrackNumber], TrackSeparators);
  }

  /** "trackNumber" never holds a raw composite such as "4/20": it has no "/" at all.
      Neither has "albumLength" unless it is the NUM_TRACKS value. */
  lemma TrackFieldsHaveNoSlash(uri: string, tags: RawTags)
    ensures var m := Normalized(uri, tags);
      && (TrackNumber in m && m[TrackNumber].Some? ==> NoneOf(m[TrackNumber].value, TrackSeparators))
      && (AlbumLength in m && m[AlbumLength].Some? && KeyNumTracks !in tags ==>
            NoneOf(m[AlbumLength].value, TrackSeparators))
  {
    DerivedEntries(uri, tags);
    if KeyCdTrackNumber in tags {
      var parts := Split(tags[KeyCdTrackNumber], TrackSeparators);
      if parts != [] {
        TrimKeepsNoneOf(parts[0], TrackSeparators);
        TrimKeepsNoneOf(parts[|parts| - 1], TrackSeparators);
      }
    }
  }

  /** The year tag, trimmed, wins whenever it is there, even when it is blank (then the
      year is "", and the date is not looked at). */
  lemma YearTagWins(uri: string, tags: RawTags)
    requires KeyYear in tags
    ensures Get(Normalized(uri, tags), Year) == Some(Trim(tags[KeyYear]))
    ensures (forall k :: 0 <= k < |tags[KeyYear]| ==> IsTrimmable(tags[KeyYear][k])) ==>
      Get(Normalized(uri, tags), Year) == Some("")
  {
    DerivedEntries(uri, tags);
    TrimBounds(tags[KeyYear]);
  }

  /** Without a year tag, the year is the text of the date tag before its first ".", "-"
      or "/", trimmed; null when the date is made of separators only or is missing. */
  lemma YearFromDate(uri: string, tags: RawTags)
    requires KeyYear !in tags
    ensures var year := Get(Normalized(uri, tags), Year);
      && (KeyDate !in tags ==> year == None)
      && (KeyDate in tags && tags[KeyDate] != [] && AllOf(tags[KeyDate], DateSeparators) ==> year == None)
      && (KeyDate in tags && !(tags[KeyDate] != [] && AllOf(tags[KeyDate], DateSeparators)) ==>
            year == Some(Trim(tags[KeyDate][..FirstIndex(tags[KeyDate], DateSeparators)])))
  {
    DerivedEntries(uri, tags);
    if KeyDate in tags {
      var d := tags[KeyDate];
      SplitEmptyIff(d, DateSeparators);
      if !(d != [] && AllOf(d, DateSeparators)) {
        SplitFirst(d, DateSeparators);
      }
    }
  }

  /** A track number "n/total" with no other "/" and no NUM_TRACKS gives the track
      number n and the album length total, both trimmed. */
  lemma TrackOfTotal(uri: string, tags: RawTags, n: string, total: string)
    requires KeyNumTracks !in tags && KeyCdTrackNumber in tags
    requires tags[KeyCdTrackNumber] == n + "/" + total
    requires NoneOf(n, TrackSeparators) && NoneOf(total, TrackSeparators) && total != []
    ensures var m := Normalized(uri, tags);
      Get(m, TrackNumber) == Some(Trim(n)) && Get(m, AlbumLength) == Some(Trim(total))
  {
    var t := n + "/" + total;
    assert t[..|n|] == n && t[|n|] == '/' && t[|n| + 1..] == total;
    assert t[|t| - 1] == total[|total| - 1];
    FirstIndexAt(t, TrackSeparators, |n|);
    SplitLast(t, TrackSeparators, |n| + 1);
    TrackNumberIsFirstSegment(uri, tags);
    assert t + [] == t;
    AlbumLengthIsLastSegment(uri, tags, t, [], |n| + 1);
  }

  /** Without a year tag, a date "y" + separator + rest, where y is non-empty and has no
      separator, gives the year y trimmed (so "2002.07.23" gives "2002"). */
  lemma YearOfDelimitedDate(uri: string, tags: RawTags, y: string, sep: char, rest: string)
    requires KeyYear !in tags && KeyDate in tags
    requires tags[KeyDate] == y + [sep] + rest
    requires y != [] && NoneOf(y, DateSeparators) && sep in DateSeparators
    ensures Get(Normalized(uri, tags), Year) == Some(Trim(y))
  {
    var d := y + [sep] + rest;
    assert d[..|y|] == y && d[|y|] == sep && d[0] == y[0];
    FirstIndexAt(d, DateSeparators, |y|);
    YearFromDate(uri, tags);
  }
}
