/** getFileMeta (climlib/wrangle.py) once the xml is open: the creation
    date, the publish flag and the number of time steps, read from what the
    file's header shows. Opening the file is not modelled; the header, or
    its absence, is the input. */
module Meta {
  import opened Wrappers
  import opened Text
  import opened Dates

  /** What an opened xml shows: its creation_date attribute if it has one,
      the directory of its data, and the length of its time axis if it has one. */
  datatype Header = Header(creationDate: Option<string>, directory: string, timeLength: Option<nat>)

  /** What getFileMeta returns: creation date as YYYYMMDD, whether the data
      sits in a publish directory, and the number of time steps. */
  datatype FileMeta = FileMeta(cdate: int, publish: bool, tpoints: int)

  /** The directory marker of locally republished data. */
  const PublishMarker := "publish"

  /** str.find: the index of the first occurrence of sub in s, or -1. */
  function Find(s: string, sub: string): (r: int)
    ensures -1 <= r <= |s|
    ensures r == -1 <==> !Contains(s, sub)
    ensures r >= 0 ==> IsPrefix(sub, s[r..]) && forall i :: 0 <= i < r ==> !IsPrefix(sub, s[i..])
    decreases |s|
  {
    if IsPrefix(sub, s) then 0
    else if |s| == 0 then -1
    else
      var r := Find(s[1..], sub);
      assert forall i :: 1 <= i <= |s| ==> s[i..] == s[1..][i - 1..];
      if r < 0 then -1 else r + 1
  }

  /** The publish test as written: bool(directory.find('publish')), which
      is false only when the marker starts the directory. */
  function PublishFlagAsWritten(directory: string): (published: bool)
    ensures !published <==> IsPrefix(PublishMarker, directory)
  {
    assert directory[0..] == directory;
    Find(directory, PublishMarker) != 0
  }

  /** The publish test as intended: the marker occurs in the directory. */
  function PublishFlag(directory: string): (published: bool)
    ensures published <==> exists i :: 0 <= i <= |directory| && IsPrefix(PublishMarker, directory[i..])
  {
    ContainsAt(directory, PublishMarker);
    Find(directory, PublishMarker) != -1
  }

  /** The test as written disagrees with the intended one exactly when the
      marker is missing or starts the directory. */
  lemma PublishFlagAsWrittenDiffers(directory: string)
    ensures PublishFlagAsWritten(directory) != PublishFlag(directory)
        <==> !Contains(directory, PublishMarker) || IsPrefix(PublishMarker, directory)
  {
    assert directory[0..] == directory;
  }

  /** A directory without the marker counts as published, and one that
      starts with it counts as not published. */
  lemma PublishFlagAsWrittenExamples()
    ensures PublishFlagAsWritten("/data") && !PublishFlag("/data")
    ensures !PublishFlagAsWritten("publish/cmip5") && PublishFlag("publish/cmip5")
  {
    assert "publish/cmip5"[..7] == PublishMarker;
    assert "publish/cmip5"[0..] == "publish/cmip5";
    ContainsAt("/data", PublishMarker);
  }

  /** getFileMeta after the file is open: the first failure is the creation
      date's int(); the time-step count is 0 without a time axis. */
  function GetFileMeta(header: Header): (r: Result<FileMeta>)
    ensures r.Success? <==> CreationDate(header.creationDate).Success?
    ensures r.Success? ==> r.value.cdate == CreationDate(header.creationDate).value
    ensures r.Success? ==> (r.value.publish <==> Contains(header.directory, PublishMarker))
    ensures r.Success? ==> r.value.tpoints == (if header.timeLength.Some? then header.timeLength.value else 0)
  {
    match CreationDate(header.creationDate)
    case Failure(e) => Failure(e)
    case Success(cdate) =>
      var tpoints := if header.timeLength.Some? then header.timeLength.value else 0;
      Success(FileMeta(cdate, PublishFlag(header.directory), tpoints))
  }

  /** A file without a creation_date reads as created on 6 March 1989. */
  lemma GetFileMetaMissingDate(directory: string, timeLength: Option<nat>)
    ensures GetFileMeta(Header(None, directory, timeLength)).Success?
    ensures GetFileMeta(Header(None, directory, timeLength)).value.cdate == 19890306
  {
    CreationDateMissing();
  }
}
