/**
  * Projection of Commons `imageinfo` answers into one flat record per file,
  * keyed by file title, with the field set chosen by the file's `mediatype`.
  */
module Commons {
  import opened Wrappers

  /** A decoded JSON value; numbers are kept as exact rationals. */
  datatype Value =
    | Null
    | Bool(b: bool)
    | Num(n: real)
    | Str(s: string)
    | Arr(items: seq<Value>)
    | Obj(members: map<string, Value>)

  /** One `imageinfo` entry: member name to value. */
  type Info = map<string, Value>

  /** A flat record of one file. */
  type Record = map<string, Value>

  /** One page of the `query.pages` answer; `imageinfo` may be absent. */
  datatype Page = Page(title: string, imageinfo: Option<seq<Info>>)

  /** Raised while projecting a page that has `imageinfo`. */
  datatype MediaError =
    | EmptyImageInfo(title: string)                        // `imageinfo[0]` of an empty list (an IndexError)
    | MissingMediaType(title: string)                      // no `mediatype` member (a KeyError)
    | UnsupportedMediaType(title: string, mediatype: Value) // no field set for this `mediatype`

  const ImageFields: seq<string> := [
    "mediatype", "size", "url", "descriptionurl", "width", "height",
    "mime", "thumburl", "thumbwidth", "thumbheight", "thumbmime"]

  const AudioFields: seq<string> := ["mediatype", "size", "url", "descriptionurl", "duration", "mime"]

  const VideoFields: seq<string> := ImageFields + ["duration"]

  const OfficeFields: seq<string> := ImageFields + ["pagecount"]

  /**
    * The field set for a `mediatype`: image fields for BITMAP, DRAWING and 3D,
    * audio fields for AUDIO, image fields and `duration` for VIDEO, image
    * fields and `pagecount` for OFFICE, none for anything else. Every set
    * names `mediatype` and none names `title`.
    */
  function FieldsFor(mediatype: Value): (fields: Option<seq<string>>)
    ensures fields.Some? <==> mediatype in [Str("BITMAP"), Str("DRAWING"), Str("3D"),
                                             Str("AUDIO"), Str("VIDEO"), Str("OFFICE")]
    ensures fields.Some? ==> "mediatype" in fields.value && "title" !in fields.value
  {
    if mediatype in [Str("BITMAP"), Str("DRAWING"), Str("3D")] then Some(ImageFields)
    else if mediatype == Str("AUDIO") then Some(AudioFields)
    else if mediatype == Str("VIDEO") then Some(VideoFields)
    else if mediatype == Str("OFFICE") then Some(OfficeFields)
    else None
  }

  /** `{"title": title}` extended, field by field, with each listed field present in `info`. */
  function Project(fields: seq<string>, title: string, info: Info): Record
    decreases |fields|
  {
    if fields == [] then map["title" := Str(title)]
    else
      var record := Project(fields[..|fields| - 1], title, info);
      var f := fields[|fields| - 1];
      if f in info then record[f := info[f]] else record
  }

  /**
    * The projection holds `title` and exactly the listed fields that `info`
    * has, each with `info`'s value; `title` is the page title unless it is
    * itself a listed field of `info`.
    */
  lemma {:induction false} ProjectContents(fields: seq<string>, title: string, info: Info)
    ensures Project(fields, title, info).Keys == {"title"} + (set f | f in fields && f in info)
    ensures forall f :: f in fields && f in info ==> Project(fields, title, info)[f] == info[f]
    ensures "title" !in fields || "title" !in info ==> Project(fields, title, info)["title"] == Str(title)
    decreases |fields|
  {
    if fields != [] {
      var init := fields[..|fields| - 1];
      ProjectContents(init, title, info);
      assert fields == init + [fields[|fields| - 1]];
    }
  }

  /**
    * Copies into a record the page title and each listed field present in the
    * page's first `imageinfo` entry.
    */
  method FormatCommonsMetadataForFile(fields: seq<string>, page: Page) returns (record: Record)
    requires page.imageinfo.Some? && |page.imageinfo.value| > 0
    ensures record == Project(fields, page.title, page.imageinfo.value[0])
    ensures record.Keys == {"title"} + (set f | f in fields && f in page.imageinfo.value[0])
    ensures forall f :: f in fields && f in page.imageinfo.value[0] ==> record[f] == page.imageinfo.value[0][f]
  {
    var info := page.imageinfo.value[0];
    record := map["title" := Str(page.title)];
    var i := 0;
    while i < |fields|
      invariant 0 <= i <= |fields|
      invariant record == Project(fields[..i], page.title, info)
    {
      var field := fields[i];
      assert fields[..i + 1][..i] == fields[..i];
      if field in info {
        record := record[field := info[field]];
      }
      i := i + 1;
    }
    assert fields[..i] == fields;
    ProjectContents(fields, page.title, info);
  }

  /** The record of a page that has `imageinfo`, or the error projecting it raises. */
  function RecordOf(page: Page): Result<Record, MediaError>
    requires page.imageinfo.Some?
  {
    if |page.imageinfo.value| == 0 then Failure(EmptyImageInfo(page.title))
    else
      var info := page.imageinfo.value[0];
      if "mediatype" !in info then Failure(MissingMediaType(page.title))
      else match FieldsFor(info["mediatype"])
        case None => Failure(UnsupportedMediaType(page.title, info["mediatype"]))
        case Some(fields) => Success(Project(fields, page.title, info))
  }

  /** Whether projecting the page raises. */
  predicate Raises(page: Page)
  {
    page.imageinfo.Some? && RecordOf(page).Failure?
  }

  /**
    * Folds the pages into `data` in order: a page without `imageinfo` is
    * skipped, any other one sets the entry of its title; the first page whose
    * projection raises aborts the fold.
    */
  function MediaMetadata(pages: seq<Page>, data: map<string, Record>): Result<map<string, Record>, MediaError>
    decreases |pages|
  {
    if pages == [] then Success(data)
    else if pages[0].imageinfo.None? then MediaMetadata(pages[1..], data)
    else match RecordOf(pages[0])
      case Failure(e) => Failure(e)
      case Success(record) => MediaMetadata(pages[1..], data[pages[0].title := record])
  }

  /** The fold after one page that does not raise is the fold of the rest from the updated map. */
  lemma MediaMetadataStep(pages: seq<Page>, data: map<string, Record>)
    requires pages != [] && !Raises(pages[0])
    ensures MediaMetadata(pages, data) ==
              MediaMetadata(pages[1..], if pages[0].imageinfo.None? then data
                                        else data[pages[0].title := RecordOf(pages[0]).value])
  {
  }

  /** The fold fails exactly when some page raises. */
  lemma {:induction false} MediaMetadataFailsIff(pages: seq<Page>, data: map<string, Record>)
    ensures MediaMetadata(pages, data).Failure? <==> exists i :: 0 <= i < |pages| && Raises(pages[i])
    decreases |pages|
  {
    if pages != [] && !Raises(pages[0]) {
      var rest := pages[1..];
      var data' := if pages[0].imageinfo.None? then data else data[pages[0].title := RecordOf(pages[0]).value];
      MediaMetadataStep(pages, data);
      MediaMetadataFailsIff(rest, data');
      if exists i :: 0 <= i < |rest| && Raises(rest[i]) {
        var i :| 0 <= i < |rest| && Raises(rest[i]);
        assert Raises(pages[i + 1]);
      }
      if exists i :: 0 <= i < |pages| && Raises(pages[i]) {
        var i :| 0 <= i < |pages| && Raises(pages[i]);
        assert i > 0 && Raises(rest[i - 1]);
      }
    }
  }

  /** The fold fails with the error of the first page that raises. */
  lemma {:induction false} MediaMetadataFirstError(pages: seq<Page>, data: map<string, Record>, i: nat)
    requires i < |pages| && Raises(pages[i])
    requires forall j :: 0 <= j < i ==> !Raises(pages[j])
    ensures MediaMetadata(pages, data) == Failure(RecordOf(pages[i]).error)
    decreases i
  {
    if i > 0 {
      var rest := pages[1..];
      var data' := if pages[0].imageinfo.None? then data else data[pages[0].title := RecordOf(pages[0]).value];
      MediaMetadataStep(pages, data);
      forall j | 0 <= j < i - 1 ensures !Raises(rest[j]) {
        assert rest[j] == pages[j + 1];
      }
      assert rest[i - 1] == pages[i];
      MediaMetadataFirstError(rest, data', i - 1);
    }
  }

  /** The fold fails exactly when some page raises, with the first such page's error. */
  lemma {:induction false} MediaMetadataFailure(pages: seq<Page>, data: map<string, Record>)
    ensures MediaMetadata(pages, data).Failure? <==> exists i :: 0 <= i < |pages| && Raises(pages[i])
    ensures MediaMetadata(pages, data).Failure? ==> exists i ::
      && 0 <= i < |pages|
      && Raises(pages[i])
      && (forall j :: 0 <= j < i ==> !Raises(pages[j]))
      && MediaMetadata(pages, data).error == RecordOf(pages[i]).error
  {
    MediaMetadataFailsIff(pages, data);
    if exists i :: 0 <= i < |pages| && Raises(pages[i]) {
      var i := FirstRaising(pages);
      MediaMetadataFirstError(pages, data, i);
    }
  }

  /** The index of the first page that raises, when there is one. */
  ghost function FirstRaising(pages: seq<Page>): (i: nat)
    requires exists k :: 0 <= k < |pages| && Raises(pages[k])
    ensures i < |pages| && Raises(pages[i]) && forall j :: 0 <= j < i ==> !Raises(pages[j])
    decreases |pages|
  {
    if Raises(pages[0]) then 0
    else
      var k :| 0 <= k < |pages| && Raises(pages[k]);
      assert pages[1..][k - 1] == pages[k];
      var i := FirstRaising(pages[1..]);
      assert forall j :: 1 <= j < i + 1 ==> pages[j] == pages[1..][j - 1];
      i + 1
  }

  /**
    * On success the titles in the result are those of `data` plus those of
    * the pages that have `imageinfo`; pages without it contribute nothing.
    */
  lemma {:induction false} MediaMetadataKeys(pages: seq<Page>, data: map<string, Record>, title: string)
    requires MediaMetadata(pages, data).Success?
    ensures title in MediaMetadata(pages, data).value <==>
              title in data || exists i :: 0 <= i < |pages| && pages[i].imageinfo.Some? && pages[i].title == title
    decreases |pages|
  {
    if pages != [] {
      var rest := pages[1..];
      var data' := if pages[0].imageinfo.None? then data else data[pages[0].title := RecordOf(pages[0]).value];
      MediaMetadataKeys(rest, data', title);
      if exists i :: 0 <= i < |rest| && rest[i].imageinfo.Some? && rest[i].title == title {
        var i :| 0 <= i < |rest| && rest[i].imageinfo.Some? && rest[i].title == title;
        assert pages[i + 1] == rest[i];
      }
      if exists i :: 0 <= i < |pages| && pages[i].imageinfo.Some? && pages[i].title == title {
        var i :| 0 <= i < |pages| && pages[i].imageinfo.Some? && pages[i].title == title;
        if i > 0 { assert pages[i] == rest[i - 1]; }
      }
    }
  }

  /**
    * On success the entry of a title is the projection of the last page with
    * that title and `imageinfo`, by the field set of its `mediatype`; it
    * carries that title and that `mediatype`.
    */
  lemma {:induction false} MediaMetadataRecord(pages: seq<Page>, data: map<string, Record>, i: nat)
    requires MediaMetadata(pages, data).Success?
    requires i < |pages| && pages[i].imageinfo.Some?
    requires forall j :: i < j < |pages| && pages[j].imageinfo.Some? ==> pages[j].title != pages[i].title
    ensures |pages[i].imageinfo.value| > 0 && "mediatype" in pages[i].imageinfo.value[0]
    ensures FieldsFor(pages[i].imageinfo.value[0]["mediatype"]).Some?
    ensures pages[i].title in MediaMetadata(pages, data).value
    ensures MediaMetadata(pages, data).value[pages[i].title] ==
              Project(FieldsFor(pages[i].imageinfo.value[0]["mediatype"]).value,
                      pages[i].title, pages[i].imageinfo.value[0])
    ensures "title" in MediaMetadata(pages, data).value[pages[i].title]
    ensures "mediatype" in MediaMetadata(pages, data).value[pages[i].title]
    ensures MediaMetadata(pages, data).value[pages[i].title]["title"] == Str(pages[i].title)
    ensures MediaMetadata(pages, data).value[pages[i].title]["mediatype"] ==
              pages[i].imageinfo.value[0]["mediatype"]
    decreases |pages|
  {
    var rest := pages[1..];
    MediaMetadataFailure(pages, data);
    assert !Raises(pages[i]);
    var data' := if pages[0].imageinfo.None? then data else data[pages[0].title := RecordOf(pages[0]).value];
    if i == 0 {
      forall j | 0 <= j < |rest| && rest[j].imageinfo.Some? ensures rest[j].title != pages[0].title {
        assert rest[j] == pages[j + 1];
      }
      MediaMetadataKeepsUntouched(rest, data', pages[0].title);
    } else {
      forall j | i - 1 < j < |rest| && rest[j].imageinfo.Some? ensures rest[j].title != rest[i - 1].title {
        assert rest[j] == pages[j + 1];
      }
      MediaMetadataRecord(rest, data', i - 1);
    }
    var info := pages[i].imageinfo.value[0];
    ProjectContents(FieldsFor(info["mediatype"]).value, pages[i].title, info);
  }

  /** An entry of `data` whose title no later page with `imageinfo` carries survives unchanged. */
  lemma {:induction false} MediaMetadataKeepsUntouched(pages: seq<Page>, data: map<string, Record>, title: string)
    requires MediaMetadata(pages, data).Success?
    requires title in data
    requires forall j :: 0 <= j < |pages| && pages[j].imageinfo.Some? ==> pages[j].title != title
    ensures title in MediaMetadata(pages, data).value
    ensures MediaMetadata(pages, data).value[title] == data[title]
    decreases |pages|
  {
    if pages != [] {
      var rest := pages[1..];
      forall j | 0 <= j < |rest| && rest[j].imageinfo.Some? ensures rest[j].title != title {
        assert rest[j] == pages[j + 1];
      }
      var data' := if pages[0].imageinfo.None? then data else data[pages[0].title := RecordOf(pages[0]).value];
      MediaMetadataKeepsUntouched(rest, data', title);
    }
  }

  /**
    * Every entry's `title` is its own key: true of `data` and kept by the fold.
    */
  lemma {:induction false} MediaMetadataTitlesMatch(pages: seq<Page>, data: map<string, Record>)
    requires MediaMetadata(pages, data).Success?
    requires forall t :: t in data ==> "title" in data[t] && data[t]["title"] == Str(t)
    ensures forall t :: t in MediaMetadata(pages, data).value ==>
              "title" in MediaMetadata(pages, data).value[t] && MediaMetadata(pages, data).value[t]["title"] == Str(t)
    decreases |pages|
  {
    if pages != [] {
      if pages[0].imageinfo.Some? {
        var info := pages[0].imageinfo.value[0];
        ProjectContents(FieldsFor(info["mediatype"]).value, pages[0].title, info);
        MediaMetadataTitlesMatch(pages[1..], data[pages[0].title := RecordOf(pages[0]).value]);
      } else {
        MediaMetadataTitlesMatch(pages[1..], data);
      }
    }
  }

  /**
    * The loop as the source writes it. The record variable outlives each
    * iteration, and no branch assigns it for a `mediatype` outside the six
    * known ones: such a page raises when no record was made before it, and
    * otherwise stores the previous page's record under its own title.
    */
  function MediaMetadataAsWritten(pages: seq<Page>, previous: Option<Record>, data: map<string, Record>)
    : Result<map<string, Record>, MediaError>
    decreases |pages|
  {
    if pages == [] then Success(data)
    else
      var page := pages[0];
      if page.imageinfo.None? then MediaMetadataAsWritten(pages[1..], previous, data)
      else if |page.imageinfo.value| == 0 then Failure(EmptyImageInfo(page.title))
      else
        var info := page.imageinfo.value[0];
        if "mediatype" !in info then Failure(MissingMediaType(page.title))
        else match FieldsFor(info["mediatype"])
          case Some(fields) =>
            var record := Project(fields, page.title, info);
            MediaMetadataAsWritten(pages[1..], Some(record), data[page.title := record])
          case None =>
            if previous.None? then Failure(UnsupportedMediaType(page.title, info["mediatype"]))
            else MediaMetadataAsWritten(pages[1..], previous, data[page.title := previous.value])
  }

  /** Every page that has a non-empty `imageinfo` with a `mediatype` names one of the six known types. */
  predicate KnownMediaTypes(pages: seq<Page>)
  {
    forall i ::
      (0 <= i < |pages| && pages[i].imageinfo.Some? && |pages[i].imageinfo.value| > 0
       && "mediatype" in pages[i].imageinfo.value[0])
      ==> FieldsFor(pages[i].imageinfo.value[0]["mediatype"]).Some?
  }

  /**
    * The correction changes nothing else: when every `mediatype` is known,
    * the loop as written and the corrected fold agree.
    */
  lemma {:induction false} AsWrittenAgreesOnKnownTypes(pages: seq<Page>, previous: Option<Record>, data: map<string, Record>)
    requires KnownMediaTypes(pages)
    ensures MediaMetadataAsWritten(pages, previous, data) == MediaMetadata(pages, data)
    decreases |pages|
  {
    if pages != [] {
      var page := pages[0];
      assert KnownMediaTypes(pages[1..]) by {
        forall i | 0 <= i < |pages[1..]| ensures pages[1..][i] == pages[i + 1] { }
      }
      if page.imageinfo.None? {
        AsWrittenAgreesOnKnownTypes(pages[1..], previous, data);
      } else if |page.imageinfo.value| > 0 && "mediatype" in page.imageinfo.value[0] {
        var info := page.imageinfo.value[0];
        assert FieldsFor(info["mediatype"]).Some? by { assert pages[0] == page; }
        var record := Project(FieldsFor(info["mediatype"]).value, page.title, info);
        AsWrittenAgreesOnKnownTypes(pages[1..], Some(record), data[page.title := record]);
      }
    }
  }

  /**
    * A bitmap followed by a file of unknown media type: as written, the second
    * title is given the first file's record, whose `title` names the first
    * file; the corrected fold raises instead.
    */
  lemma StaleRecordUnderNewTitle()
    ensures var pages := [Page("File:A.jpg", Some([map["mediatype" := Str("BITMAP")]])),
                          Page("File:B.bin", Some([map["mediatype" := Str("UNKNOWN")]]))];
      && MediaMetadataAsWritten(pages, None, map[]).Success?
      && "File:B.bin" in MediaMetadataAsWritten(pages, None, map[]).value
      && "title" in MediaMetadataAsWritten(pages, None, map[]).value["File:B.bin"]
      && MediaMetadataAsWritten(pages, None, map[]).value["File:B.bin"]["title"] == Str("File:A.jpg")
      && MediaMetadata(pages, map[]) == Failure(UnsupportedMediaType("File:B.bin", Str("UNKNOWN")))
  {
    ProjectContents(ImageFields, "File:A.jpg", map["mediatype" := Str("BITMAP")]);
  }

  /**
    * Projects every page into a record keyed by its title, skipping pages
    * without `imageinfo`; a page with an empty `imageinfo`, without a
    * `mediatype` or with a `mediatype` outside the six known ones raises.
    */
  method FormatCommonsMediaMetadata(pages: seq<Page>) returns (r: Result<map<string, Record>, MediaError>)
    ensures r == MediaMetadata(pages, map[])
  {
    var data: map<string, Record> := map[];
    var i := 0;
    while i < |pages|
      invariant 0 <= i <= |pages|
      invariant MediaMetadata(pages[i..], data) == MediaMetadata(pages, map[])
    {
      var page := pages[i];
      assert pages[i..][0] == page && pages[i..][1..] == pages[i + 1..];
      i := i + 1;
      if page.imageinfo.None? {
        continue;
      }
      if |page.imageinfo.value| == 0 {
        return Failure(EmptyImageInfo(page.title));
      }
      var info := page.imageinfo.value[0];
      if "mediatype" !in info {
        return Failure(MissingMediaType(page.title));
      }
      var fields := FieldsFor(info["mediatype"]);
      if fields.None? {
        return Failure(UnsupportedMediaType(page.title, info["mediatype"]));
      }
      var record := FormatCommonsMetadataForFile(fields.value, page);
      data := data[page.title := record];
    }
    r := Success(data);
  }
}
