/**
  * Normalisation of the hits of an entity search (`wbsearchentities`) into
  * flat search results.
  */
module Search {
  import opened Wrappers

  /** One hit of the search answer; its JSON members `label` (here `labelText`), `aliases` and `description` may be absent. */
  datatype SearchHit = SearchHit(
    id: string,
    url: string,
    labelText: Option<string>,
    aliases: Option<seq<string>>,
    description: Option<string>)

  /** The flat record handed to callers. */
  datatype SearchResult = SearchResult(
    id: string,
    labelText: Option<string>,
    description: Option<string>,
    url: string,
    language: string)

  /** Raised while reading a hit: `aliases[0]` of an empty alias list (an IndexError). */
  datatype SearchError = EmptyAliases(id: string)

  /** The hit has no label and an empty alias list, so taking its first alias raises. */
  predicate LabelRaises(hit: SearchHit)
  {
    hit.labelText.None? && hit.aliases == Some([])
  }

  /**
    * Normalises every hit, in order: `id` and `url` are copied, `description`
    * is kept or absent, the label falls back from `label` to the first alias to
    * absent, and `language` echoes the parameter. The first hit whose label
    * lookup raises aborts the whole call.
    */
  method ProcessSearchResults(results: seq<SearchHit>, language: string := "en")
    returns (r: Result<seq<SearchResult>, SearchError>)
    ensures results == [] ==> r == Success([])
    ensures r.Failure? <==> exists i :: 0 <= i < |results| && LabelRaises(results[i])
    ensures r.Failure? ==> exists i ::
      && 0 <= i < |results|
      && LabelRaises(results[i])
      && r.error == EmptyAliases(results[i].id)
      && forall j :: 0 <= j < i ==> !LabelRaises(results[j])
    ensures r.Success? ==> |r.value| == |results|
    ensures r.Success? ==> forall i :: 0 <= i < |results| ==>
      && r.value[i].id == results[i].id
      && r.value[i].url == results[i].url
      && r.value[i].description == results[i].description
      && r.value[i].language == language
      && r.value[i].labelText ==
           if results[i].labelText.Some? then results[i].labelText
           else if results[i].aliases.Some? then Some(results[i].aliases.value[0])
           else None
  {
    if |results| == 0 {
      return Success([]);
    }
    var records: seq<SearchResult> := [];
    var i := 0;
    while i < |results|
      invariant 0 <= i <= |results|
      invariant |records| == i
      invariant forall j :: 0 <= j < i ==> !LabelRaises(results[j])
      invariant forall j :: 0 <= j < i ==>
        && records[j].id == results[j].id
        && records[j].url == results[j].url
        && records[j].description == results[j].description
        && records[j].language == language
        && records[j].labelText ==
             if results[j].labelText.Some? then results[j].labelText
             else if results[j].aliases.Some? then Some(results[j].aliases.value[0])
             else None
    {
      var hit := results[i];
      var chosen: Option<string>;
      if hit.labelText.Some? {
        chosen := hit.labelText;
      } else if hit.aliases.Some? {
        if |hit.aliases.value| == 0 {
          return Failure(EmptyAliases(hit.id));
        }
        chosen := Some(hit.aliases.value[0]);
      } else {
        chosen := None;
      }
      records := records + [SearchResult(hit.id, chosen, hit.description, hit.url, language)];
      i := i + 1;
    }
    r := Success(records);
  }
}
