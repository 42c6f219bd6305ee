/**
  * Normalisation of SPARQL query answers: each binding row becomes one entry
  * of an identifier-to-label map, keyed by the last path segment of the
  * entity URI. Also the `VALUES` clause built for a label query.
  */
module Sparql {
  import opened Wrappers
  import opened PyStr

  /** A bound value of a SPARQL JSON answer (only its `value` member is read). */
  datatype Term = Term(value: string)

  /** One row of `results.bindings`: variable name to bound value. */
  type Binding = map<string, Term>

  /** Raised while reading a row: the variable is not bound in it (a KeyError). */
  datatype BindingError = KeyError(name: string)

  /** `uri.split("/")[-1]`: the identifier at the end of an entity URI. */
  function LastSegment(uri: string): string
  {
    var parts := Split(uri, '/');
    parts[|parts| - 1]
  }

  /**
    * The last segment is exactly the text after the last `/` of the URI (the
    * whole URI when it has none): a suffix of the URI, free of `/`, preceded
    * by a `/` unless it is the whole URI.
    */
  lemma {:induction false} LastSegmentIsTextAfterLastSlash(uri: string)
    ensures '/' !in LastSegment(uri)
    ensures |LastSegment(uri)| <= |uri|
    ensures uri[|uri| - |LastSegment(uri)|..] == LastSegment(uri)
    ensures |LastSegment(uri)| < |uri| ==> uri[|uri| - |LastSegment(uri)| - 1] == '/'
    decreases |uri|
  {
    if uri != [] {
      var init := uri[..|uri| - 1];
      LastSegmentIsTextAfterLastSlash(init);
      var c := uri[|uri| - 1];
      if c != '/' {
        assert LastSegment(uri) == LastSegment(init) + [c];
        assert uri == init + [c];
      }
    }
  }

  /** Whether a row binds both the key variable and its label variable. */
  predicate Complete(b: Binding, keyVar: string, labelVar: string)
  {
    keyVar in b && labelVar in b
  }

  /** The error reading an incomplete row raises: the key variable is read first. */
  function MissingVar(b: Binding, keyVar: string, labelVar: string): BindingError
  {
    if keyVar !in b then KeyError(keyVar) else KeyError(labelVar)
  }

  /** The map key a complete row yields. */
  function KeyOf(b: Binding, keyVar: string, labelVar: string): string
    requires Complete(b, keyVar, labelVar)
  {
    LastSegment(b[keyVar].value)
  }

  /**
    * Folds the rows into `data` from first to last; each row overwrites the
    * entry of its key. The first incomplete row aborts the fold.
    */
  function LabelMap(results: seq<Binding>, keyVar: string, labelVar: string, data: map<string, string>)
    : Result<map<string, string>, BindingError>
    decreases |results|
  {
    if results == [] then Success(data)
    else if !Complete(results[0], keyVar, labelVar) then Failure(MissingVar(results[0], keyVar, labelVar))
    else LabelMap(results[1..], keyVar, labelVar,
                  data[KeyOf(results[0], keyVar, labelVar) := results[0][labelVar].value])
  }

  /** The fold fails exactly on an incomplete row, with the error of the first one. */
  lemma {:induction false} LabelMapFailure(results: seq<Binding>, keyVar: string, labelVar: string,
                                           data: map<string, string>)
    ensures LabelMap(results, keyVar, labelVar, data).Failure? <==>
              exists i :: 0 <= i < |results| && !Complete(results[i], keyVar, labelVar)
    ensures LabelMap(results, keyVar, labelVar, data).Failure? ==> exists i ::
      && 0 <= i < |results|
      && !Complete(results[i], keyVar, labelVar)
      && (forall j :: 0 <= j < i ==> Complete(results[j], keyVar, labelVar))
      && LabelMap(results, keyVar, labelVar, data).error == MissingVar(results[i], keyVar, labelVar)
    decreases |results|
  {
    if results != [] && Complete(results[0], keyVar, labelVar) {
      var rest := results[1..];
      LabelMapFailure(rest, keyVar, labelVar, data[KeyOf(results[0], keyVar, labelVar) := results[0][labelVar].value]);
      if exists i :: 0 <= i < |rest| && !Complete(rest[i], keyVar, labelVar) {
        var i :| 0 <= i < |rest| && !Complete(rest[i], keyVar, labelVar);
        assert !Complete(results[i + 1], keyVar, labelVar);
      }
      if LabelMap(results, keyVar, labelVar, data).Failure? {
        var i :| && 0 <= i < |rest|
                 && !Complete(rest[i], keyVar, labelVar)
                 && (forall j :: 0 <= j < i ==> Complete(rest[j], keyVar, labelVar))
                 && LabelMap(rest, keyVar, labelVar, data[KeyOf(results[0], keyVar, labelVar) := results[0][labelVar].value]).error
                    == MissingVar(rest[i], keyVar, labelVar);
        assert forall j :: 0 <= j < i + 1 ==> Complete(results[j], keyVar, labelVar) by {
          forall j | 0 <= j < i + 1 ensures Complete(results[j], keyVar, labelVar) {
            if j > 0 { assert results[j] == rest[j - 1]; }
          }
        }
      }
    }
  }

  /** On success every row was complete. */
  lemma {:induction false} LabelMapSuccessComplete(results: seq<Binding>, keyVar: string, labelVar: string,
                                                   data: map<string, string>)
    requires LabelMap(results, keyVar, labelVar, data).Success?
    ensures forall i :: 0 <= i < |results| ==> Complete(results[i], keyVar, labelVar)
  {
    if exists i :: 0 <= i < |results| && !Complete(results[i], keyVar, labelVar) {
      LabelMapFailure(results, keyVar, labelVar, data);
    }
  }

  /**
    * On success the keys are those already in `data` plus the key of every
    * row; a key that comes from a row is free of `/`.
    */
  lemma {:induction false} LabelMapKeys(results: seq<Binding>, keyVar: string, labelVar: string,
                                        data: map<string, string>, k: string)
    requires LabelMap(results, keyVar, labelVar, data).Success?
    ensures forall i :: 0 <= i < |results| ==> Complete(results[i], keyVar, labelVar)
    ensures k in LabelMap(results, keyVar, labelVar, data).value <==>
              k in data || exists i :: 0 <= i < |results| && KeyOf(results[i], keyVar, labelVar) == k
    ensures k in LabelMap(results, keyVar, labelVar, data).value && k !in data ==> '/' !in k
    decreases |results|
  {
    LabelMapSuccessComplete(results, keyVar, labelVar, data);
    if results != [] {
      var rest := results[1..];
      var k0 := KeyOf(results[0], keyVar, labelVar);
      var data' := data[k0 := results[0][labelVar].value];
      LabelMapKeys(rest, keyVar, labelVar, data', k);
      LastSegmentIsTextAfterLastSlash(results[0][keyVar].value);
      if exists i :: 0 <= i < |rest| && KeyOf(rest[i], keyVar, labelVar) == k {
        var i :| 0 <= i < |rest| && KeyOf(rest[i], keyVar, labelVar) == k;
        assert KeyOf(results[i + 1], keyVar, labelVar) == k;
        LastSegmentIsTextAfterLastSlash(rest[i][keyVar].value);
      }
      if exists i :: 0 <= i < |results| && KeyOf(results[i], keyVar, labelVar) == k {
        var i :| 0 <= i < |results| && KeyOf(results[i], keyVar, labelVar) == k;
        if i > 0 { assert KeyOf(rest[i - 1], keyVar, labelVar) == k; }
      }
    }
  }

  /**
    * Later rows win: the entry of a row's key holds that row's label unless a
    * later row has the same key.
    */
  lemma {:induction false} LabelMapLastWins(results: seq<Binding>, keyVar: string, labelVar: string,
                                            data: map<string, string>, i: nat)
    requires LabelMap(results, keyVar, labelVar, data).Success?
    requires i < |results|
    requires Complete(results[i], keyVar, labelVar)
    requires forall j :: i < j < |results| && Complete(results[j], keyVar, labelVar) ==>
               KeyOf(results[j], keyVar, labelVar) != KeyOf(results[i], keyVar, labelVar)
    ensures KeyOf(results[i], keyVar, labelVar) in LabelMap(results, keyVar, labelVar, data).value
    ensures LabelMap(results, keyVar, labelVar, data).value[KeyOf(results[i], keyVar, labelVar)]
            == results[i][labelVar].value
    decreases |results|
  {
    var rest := results[1..];
    var data' := data[KeyOf(results[0], keyVar, labelVar) := results[0][labelVar].value];
    if i == 0 {
      UntouchedKeyKept(rest, keyVar, labelVar, data', KeyOf(results[0], keyVar, labelVar));
    } else {
      forall j | i - 1 < j < |rest| && Complete(rest[j], keyVar, labelVar)
        ensures KeyOf(rest[j], keyVar, labelVar) != KeyOf(rest[i - 1], keyVar, labelVar)
      {
        assert rest[j] == results[j + 1];
      }
      LabelMapLastWins(rest, keyVar, labelVar, data', i - 1);
    }
  }

  /** An entry of `data` that no row's key touches survives the fold unchanged. */
  lemma {:induction false} UntouchedKeyKept(results: seq<Binding>, keyVar: string, labelVar: string,
                                            data: map<string, string>, k: string)
    requires LabelMap(results, keyVar, labelVar, data).Success?
    requires k in data
    requires forall j :: 0 <= j < |results| && Complete(results[j], keyVar, labelVar) ==>
               KeyOf(results[j], keyVar, labelVar) != k
    ensures k in LabelMap(results, keyVar, labelVar, data).value
    ensures LabelMap(results, keyVar, labelVar, data).value[k] == data[k]
    decreases |results|
  {
    if results != [] {
      var rest := results[1..];
      forall j | 0 <= j < |rest| && Complete(rest[j], keyVar, labelVar)
        ensures KeyOf(rest[j], keyVar, labelVar) != k
      {
        assert rest[j] == results[j + 1];
      }
      UntouchedKeyKept(rest, keyVar, labelVar,
                       data[KeyOf(results[0], keyVar, labelVar) := results[0][labelVar].value], k);
    }
  }

  /**
    * Builds the identifier-to-label map of a query answer, one row at a time:
    * the key is the last path segment of `keyVar`'s URI, the value is
    * `labelVar`'s value, later rows overwriting earlier ones.
    */
  method ProcessBindings(results: seq<Binding>, keyVar: string, labelVar: string)
    returns (r: Result<map<string, string>, BindingError>)
    ensures r == LabelMap(results, keyVar, labelVar, map[])
  {
    var data: map<string, string> := map[];
    var i := 0;
    while i < |results|
      invariant 0 <= i <= |results|
      invariant LabelMap(results[i..], keyVar, labelVar, data) == LabelMap(results, keyVar, labelVar, map[])
    {
      var row := results[i];
      assert results[i..][0] == row && results[i..][1..] == results[i + 1..];
      if keyVar !in row {
        return Failure(KeyError(keyVar));
      }
      var id := LastSegment(row[keyVar].value);
      if labelVar !in row {
        return Failure(KeyError(labelVar));
      }
      data := data[id := row[labelVar].value];
      i := i + 1;
    }
    r := Success(data);
  }

  /** The property map: `property` URIs to their `propertyLabel`. */
  method ProcessWikidataProperties(results: seq<Binding>) returns (r: Result<map<string, string>, BindingError>)
    ensures r == LabelMap(results, "property", "propertyLabel", map[])
  {
    r := ProcessBindings(results, "property", "propertyLabel");
  }

  /** The item map: `item` URIs to their `itemLabel`. */
  method ProcessWikidataItems(results: seq<Binding>) returns (r: Result<map<string, string>, BindingError>)
    ensures r == LabelMap(results, "item", "itemLabel", map[])
  {
    r := ProcessBindings(results, "item", "itemLabel");
  }

  /** Each identifier prefixed with the `wd:` namespace. */
  function WdTerms(ids: seq<string>): seq<string>
  {
    seq(|ids|, k requires 0 <= k < |ids| => "wd:" + ids[k])
  }

  /** The body of the `VALUES ?item { ... }` clause: the prefixed identifiers joined by spaces. */
  function ValuesClause(ids: seq<string>): string
  {
    Join(WdTerms(ids), ' ')
  }

  /**
    * For a non-empty list of space-free identifiers the clause lists exactly
    * the prefixed identifiers, in order; the empty list gives an empty clause.
    */
  lemma ValuesClauseLists(ids: seq<string>)
    requires forall k :: 0 <= k < |ids| ==> ' ' !in ids[k]
    ensures ids == [] ==> ValuesClause(ids) == ""
    ensures ids != [] ==> Split(ValuesClause(ids), ' ') == WdTerms(ids)
  {
    var terms := WdTerms(ids);
    forall k | 0 <= k < |terms| ensures ' ' !in terms[k] {
      assert terms[k] == "wd:" + ids[k];
    }
    if ids != [] {
      SplitJoin(terms, ' ');
    }
  }
}
