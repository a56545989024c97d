/** The album metadata records and how `parse_album_info` builds them from
    the already decoded structured-data fields. */
module Album {
  import opened Wrappers

  datatype TrackInfo = TrackInfo(trackNumber: int, trackName: string)

  datatype AlbumInfo = AlbumInfo(
    artist: string,
    album: string,
    datePublished: string,
    genre: string,
    tracks: seq<TrackInfo>)
  {
    /** The `number_of_tracks` property: for a list numbered from 1, the
        number of the last track. */
    function NumberOfTracks(): (n: nat)
      ensures WellNumbered(tracks) && |tracks| > 0 ==> n == tracks[|tracks| - 1].trackNumber
      ensures n == 0 <==> tracks == []
    {
      |tracks|
    }
  }

  /** The fields `parse_album_info` reads from the decoded JSON document:
      `byArtist.name`, `name`, `datePublished`, the `genre` list and the
      `name` of every entry of `tracks`, in document order. */
  datatype AlbumData = AlbumData(
    artistName: string,
    name: string,
    datePublished: string,
    genres: seq<string>,
    trackNames: seq<string>)

  /** `genre[0]` on an empty list raises `IndexError`. */
  datatype ParseError = EmptyGenreList

  /** `[TrackInfo(i + 1, name) for i, name in enumerate(names)]`, written as the
      loop it is: number the names consecutively, starting at `first`. */
  function NumberFrom(names: seq<string>, first: int): (tracks: seq<TrackInfo>)
    ensures |tracks| == |names|
    ensures forall k :: 0 <= k < |names| ==> tracks[k] == TrackInfo(first + k, names[k])
  {
    if |names| == 0 then []
    else [TrackInfo(first, names[0])] + NumberFrom(names[1..], first + 1)
  }

  function NumberTracks(names: seq<string>): seq<TrackInfo>
  {
    NumberFrom(names, 1)
  }

  /** The track numbers are the 1-based positions. */
  predicate WellNumbered(tracks: seq<TrackInfo>)
  {
    forall k :: 0 <= k < |tracks| ==> tracks[k].trackNumber == k + 1
  }

  function TrackNames(tracks: seq<TrackInfo>): (names: seq<string>)
    ensures |names| == |tracks|
    ensures forall k :: 0 <= k < |tracks| ==> names[k] == tracks[k].trackName
  {
    if |tracks| == 0 then [] else [tracks[0].trackName] + TrackNames(tracks[1..])
  }

  /** Numbering yields one track per name, numbered by position, and the names
      read back unchanged. */
  lemma NumberTracksRoundTrip(names: seq<string>)
    ensures |NumberTracks(names)| == |names|
    ensures WellNumbered(NumberTracks(names))
    ensures TrackNames(NumberTracks(names)) == names
  {
  }

  /** The track lists `parse_album_info` can produce are exactly the well-numbered ones. */
  lemma WellNumberedIffNumbered(tracks: seq<TrackInfo>)
    ensures WellNumbered(tracks) <==> tracks == NumberTracks(TrackNames(tracks))
  {
    var again := NumberTracks(TrackNames(tracks));
    if WellNumbered(tracks) {
      assert forall k :: 0 <= k < |tracks| ==> again[k] == tracks[k];
    }
  }

  /** `parse_album_info` after the JSON lookups: the first genre is taken, and
      an empty genre list is the `IndexError` the source raises. */
  function BuildAlbumInfo(data: AlbumData): (r: Result<AlbumInfo, ParseError>)
    ensures r.Failure? <==> |data.genres| == 0
    ensures r.Success? ==>
      && r.value.artist == data.artistName
      && r.value.album == data.name
      && r.value.datePublished == data.datePublished
      && r.value.genre == data.genres[0]
      && r.value.NumberOfTracks() == |data.trackNames|
      && WellNumbered(r.value.tracks)
      && TrackNames(r.value.tracks) == data.trackNames
  {
    if |data.genres| == 0 then Failure(EmptyGenreList)
    else
      NumberTracksRoundTrip(data.trackNames);
      Success(AlbumInfo(data.artistName, data.name, data.datePublished, data.genres[0],
                        NumberTracks(data.trackNames)))
  }
}
