/** The state of the calculator page: the form values, the latest results and
    whether the form has been submitted, with the three handlers that change
    them. The browser's `alert` and file-saver's `saveAs` are recorded as the
    sequences of alerts shown and files saved. */
module Calculator {
  import opened Wrappers
  import opened Report

  /** The form values, by input name. */
  type FormData = map<string, string>

  /** The form as the page starts. */
  const InitialFormData: FormData := map[
    "sample_mean" := "", "population_mean" := "", "population_std_dev" := "",
    "sample_size" := "", "significance_level" := "",
    "test_type" := "two-tailed", "approach" := "p_value"]

  /** `{ ...prevData, [name]: value }`: the one key set to the new value, every
      other key kept with its value, and no key dropped. */
  function UpdateField(prev: FormData, name: string, value: string): (next: FormData)
    ensures name in next && next[name] == value
    ensures next.Keys == prev.Keys + {name}
    ensures forall k :: k in prev && k != name ==> next[k] == prev[k]
  {
    prev[name := value]
  }

  /** What the request to the calculation service ends in: the parsed body (a
      results object, or `null`), or a rejection of `fetch` or `response.json()`. */
  datatype Response = Received(data: Option<Results>) | Rejected

  /** One call of `saveAs`. */
  datatype SavedFile = SavedFile(name: string, sections: seq<Section>)

  const NoResultsAlert := "No results available to download."
  const ErrorAlert := "An error occurred while generating the document."

  /** The files `saveAs` is asked to write for an outcome. */
  function SavesOf(o: Outcome): (f: seq<SavedFile>)
    ensures |f| <= 1
    ensures f != [] <==> o.Saved?
  {
    if o.Saved? then [SavedFile(o.name, o.sections)] else []
  }

  /** The alerts shown for an outcome. */
  function AlertsOf(o: Outcome): (a: seq<string>)
    ensures |a| <= 1
    ensures a == [] <==> o.Saved?
  {
    match o
    case Refused => [NoResultsAlert]
    case Failed => [ErrorAlert]
    case Saved(_, _) => []
  }

  /** One download saves at most one file, only under the fixed name, and
      shows an alert exactly when it saves nothing. */
  lemma AtMostOneSave(results: Option<Results>)
    ensures var o := DownloadOutcome(results);
      && |SavesOf(o)| <= 1
      && (forall f :: f in SavesOf(o) ==> f.name == FileName)
      && |SavesOf(o)| + |AlertsOf(o)| == 1
      && (results == None ==> SavesOf(o) == [] && AlertsOf(o) == [NoResultsAlert])
  {
  }

  class Page {
    var formData: FormData
    var results: Option<Results>
    var submitted: bool
    var saved: seq<SavedFile>
    var alerts: seq<string>

    constructor ()
      ensures formData == InitialFormData
      ensures results == None && !submitted
      ensures saved == [] && alerts == []
    {
      formData := InitialFormData;
      results := None;
      submitted := false;
      saved := [];
      alerts := [];
    }

    /** `handleChange`: the input's name gets the input's value. */
    method HandleChange(name: string, value: string)
      modifies this`formData
      ensures formData == UpdateField(old(formData), name, value)
      ensures submitted == old(submitted)
    {
      formData := UpdateField(formData, name, value);
    }

    /** `handleSubmit`: the page switches to the results layout and stays
        there; the response replaces the results as a whole; when the request
        is rejected the results stay as they were. */
    method HandleSubmit(response: Response)
      modifies this`submitted, this`results
      ensures submitted
      ensures response.Received? ==> results == response.data
      ensures response.Rejected? ==> results == old(results)
    {
      submitted := true;
      if response.Received? {
        results := response.data;
      }
    }

    /** `downloadReport`: refuse without results, otherwise build the blocks;
        an exception is reported and nothing is saved, and a successful build is
        saved once under the fixed file name. */
    method DownloadReport()
      modifies this`saved, this`alerts
      ensures saved == old(saved) + SavesOf(DownloadOutcome(results))
      ensures alerts == old(alerts) + AlertsOf(DownloadOutcome(results))
      ensures |saved| <= |old(saved)| + 1
      ensures forall i :: |old(saved)| <= i < |saved| ==> saved[i].name == FileName
      ensures results == None ==> saved == old(saved)
      ensures submitted == old(submitted)
    {
      if results.None? {
        alerts := alerts + [NoResultsAlert];
        return;
      }
      var children := BuildChildren(results.value);
      if children.Failure? {
        alerts := alerts + [ErrorAlert];
        return;
      }
      saved := saved + [SavedFile(FileName, children.value)];
    }
  }
}
