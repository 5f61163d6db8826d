/**
 * The indexing store: the extraction and named-entity forms, the handle of
 * the timer that polls the task list, and the task list itself, with the
 * mutations that clear tasks, reset the forms and stop polling, and the
 * requests that the submitting actions send to the backend.
 */
module Indexing {
  import opened Collections

  /** The options of the two indexing forms. */
  datatype Form = Form(ocr: bool, filter: bool, pipeline: string, offline: bool)

  /** A task as the backend lists it. */
  datatype Task = Task(name: string, progress: real, state: string)

  /** A timer handle as `setInterval` returns it. */
  type Handle = nat

  datatype IndexingState = IndexingState(form: Form, pollHandle: Option<Handle>, tasks: seq<Task>)

  function InitialForm(): Form {
    Form(false, true, "corenlp", false)
  }

  function InitialState(): IndexingState {
    IndexingState(InitialForm(), None, [])
  }

  /** The keys of the state, in the order `Object.keys` lists them. */
  datatype Key = FormKey | PollHandleKey | TasksKey

  const StateKeys: seq<Key> := [FormKey, PollHandleKey, TasksKey]

  // ---------------------------------------------------------------------
  // Removing tasks
  // ---------------------------------------------------------------------

  /** Which tasks a mutation removes: those in a given state, or those with a given name. */
  datatype Selector = StateIs(state: string) | NameIs(name: string)

  predicate Selects(sel: Selector, t: Task) {
    match sel
    case StateIs(s) => t.state == s
    case NameIs(n) => t.name == n
  }

  /** What lodash `remove` leaves in the array: the tasks `sel` does not select, in order. */
  function Remove(tasks: seq<Task>, sel: Selector): (r: seq<Task>)
    ensures forall t :: t in r <==> t in tasks && !Selects(sel, t)
    ensures |r| <= |tasks|
  {
    if tasks == [] then []
    else (if Selects(sel, tasks[0]) then [] else [tasks[0]]) + Remove(tasks[1..], sel)
  }

  /** What lodash `remove` returns: the tasks `sel` selects, in order. */
  function Removed(tasks: seq<Task>, sel: Selector): (r: seq<Task>)
    ensures forall t :: t in r <==> t in tasks && Selects(sel, t)
  {
    if tasks == [] then []
    else (if Selects(sel, tasks[0]) then [tasks[0]] else []) + Removed(tasks[1..], sel)
  }

  /** The tasks kept and the tasks removed are, together, the tasks there were. */
  lemma {:induction false} RemovePartition(tasks: seq<Task>, sel: Selector)
    ensures multiset(Remove(tasks, sel)) + multiset(Removed(tasks, sel)) == multiset(tasks)
    ensures |Remove(tasks, sel)| + |Removed(tasks, sel)| == |tasks|
  {
    if tasks != [] {
      RemovePartition(tasks[1..], sel);
      HeadMultiset(tasks);
    }
  }

  /** Removal works element by element: the kept tasks stay in their order. */
  lemma {:induction false} RemoveAppend(a: seq<Task>, b: seq<Task>, sel: Selector)
    ensures Remove(a + b, sel) == Remove(a, sel) + Remove(b, sel)
  {
    if a == [] {
      assert a + b == b;
    } else {
      var head := if Selects(sel, a[0]) then [] else [a[0]];
      assert (a + b)[0] == a[0] && (a + b)[1..] == a[1..] + b;
      assert Remove(a + b, sel) == head + Remove(a[1..] + b, sel);
      RemoveAppend(a[1..], b, sel);
      AppendAssociative(head, Remove(a[1..], sel), Remove(b, sel));
    }
  }

  /** A list in which nothing is selected is left as it is. */
  lemma {:induction false} RemoveNothing(tasks: seq<Task>, sel: Selector)
    requires forall t :: t in tasks ==> !Selects(sel, t)
    ensures Remove(tasks, sel) == tasks
  {
    if tasks != [] {
      RemoveNothing(tasks[1..], sel);
      assert tasks == [tasks[0]] + tasks[1..];
    }
  }

  /** Removing twice removes nothing more. */
  lemma RemoveIdempotent(tasks: seq<Task>, sel: Selector)
    ensures Remove(Remove(tasks, sel), sel) == Remove(tasks, sel)
  {
    RemoveNothing(Remove(tasks, sel), sel);
  }

  /** Stopping pending tasks and deleting finished ones can be done in either order. */
  lemma {:induction false} RemoveCommutes(tasks: seq<Task>, a: Selector, b: Selector)
    ensures Remove(Remove(tasks, a), b) == Remove(Remove(tasks, b), a)
  {
    if tasks != [] {
      var t := tasks[0];
      var rest := tasks[1..];
      RemoveCommutes(rest, a, b);
      RemoveAppend(if Selects(a, t) then [] else [t], Remove(rest, a), b);
      RemoveAppend(if Selects(b, t) then [] else [t], Remove(rest, b), a);
      assert [t][1..] == [];
    }
  }

  /** The first example of `stopTask`: of two running tasks, the one named is removed. */
  lemma StopTaskExample()
    ensures Remove([Task("foo.bar@123", 0.5, "RUNNING"), Task("foo.bar@456", 0.7, "RUNNING")], NameIs("foo.bar@123"))
         == [Task("foo.bar@456", 0.7, "RUNNING")]
  {
    var t1 := Task("foo.bar@123", 0.5, "RUNNING");
    var t2 := Task("foo.bar@456", 0.7, "RUNNING");
    assert [t1, t2][1..] == [t2];
    assert Remove([t2], NameIs("foo.bar@123")) == [t2] + Remove([], NameIs("foo.bar@123"));
  }

  // ---------------------------------------------------------------------
  // Requests
  // ---------------------------------------------------------------------

  /** The options `submitExtract` sends with `api.index`. */
  datatype IndexOptions = IndexOptions(ocr: bool, filter: bool)

  /** The backend pipeline and the options `submitFindNamedEntities` sends with `api.findNames`. */
  datatype FindNames = FindNames(pipeline: string, syncModels: bool)

  /** The pipelines the form offers, each with the name the backend knows it by. */
  const Pipelines: seq<(string, string)> :=
    [("corenlp", "CORENLP"), ("opennlp", "OPENNLP"), ("mitie", "MITIE"), ("ixapipe", "IXAPIPE"), ("email", "EMAIL")]

  function ExtractRequest(form: Form): (r: IndexOptions)
    ensures r.ocr == form.ocr && r.filter == form.filter
  {
    IndexOptions(form.ocr, form.filter)
  }

  /**
   * The `switch` of `submitFindNamedEntities`: a known pipeline is sent
   * under its backend name; `email` never syncs models; any other pipeline
   * sends nothing.
   */
  function FindNamesRequest(form: Form): (r: Option<FindNames>)
    ensures r.Some? <==> form.pipeline in ["corenlp", "opennlp", "mitie", "ixapipe", "email"]
    ensures r.Some? ==> (form.pipeline, r.value.pipeline) in Pipelines
    ensures r.Some? ==> (r.value.syncModels <==> form.pipeline != "email" && !form.offline)
  {
    match form.pipeline
    case "corenlp" => Some(FindNames("CORENLP", !form.offline))
    case "opennlp" => Some(FindNames("OPENNLP", !form.offline))
    case "mitie" => Some(FindNames("MITIE", !form.offline))
    case "ixapipe" => Some(FindNames("IXAPIPE", !form.offline))
    case "email" => Some(FindNames("EMAIL", false))
    case _ => None
  }

  /** Different pipelines reach different backend names. */
  lemma FindNamesInjective(f: Form, g: Form)
    requires FindNamesRequest(f).Some? && FindNamesRequest(g).Some?
    requires FindNamesRequest(f).value.pipeline == FindNamesRequest(g).value.pipeline
    ensures f.pipeline == g.pipeline
  {
    var p := FindNamesRequest(f).value.pipeline;
    assert (f.pipeline, p) in Pipelines && (g.pipeline, p) in Pipelines;
  }

  /** Only `pipeline` and `offline` decide the call. */
  lemma FindNamesReadsPipelineAndOffline(f: Form, g: Form)
    requires f.pipeline == g.pipeline && f.offline == g.offline
    ensures FindNamesRequest(f) == FindNamesRequest(g)
  {
  }

  /** The default form asks for CoreNLP with model synchronisation (tests/unit/specs/store/modules/indexing.spec.js:42-53). */
  lemma DefaultRequests()
    ensures ExtractRequest(InitialForm()) == IndexOptions(false, true)
    ensures FindNamesRequest(InitialForm()) == Some(FindNames("CORENLP", true))
  {
  }

  // ---------------------------------------------------------------------
  // The store
  // ---------------------------------------------------------------------

  class IndexingStore {
    var form: Form
    var pollHandle: Option<Handle>
    var tasks: seq<Task>

    /** The store's state as a value. */
    function Snapshot(): IndexingState
      reads this
    {
      IndexingState(form, pollHandle, tasks)
    }

    constructor ()
      ensures Snapshot() == InitialState()
    {
      form := InitialForm();
      pollHandle := None;
      tasks := [];
    }

    /** The `reset` mutation: every key takes its initial value; a running poll timer is not cleared. */
    method Reset()
      modifies this
      ensures Snapshot() == InitialState()
    {
      var s := InitialState();
      for i := 0 to |StateKeys|
        invariant FormKey in StateKeys[..i] ==> form == s.form
        invariant PollHandleKey in StateKeys[..i] ==> pollHandle == s.pollHandle
        invariant TasksKey in StateKeys[..i] ==> tasks == s.tasks
      {
        assert StateKeys[..i + 1] == StateKeys[..i] + [StateKeys[i]];
        match StateKeys[i]
        case FormKey => form := s.form;
        case PollHandleKey => pollHandle := s.pollHandle;
        case TasksKey => tasks := s.tasks;
      }
      assert StateKeys[..|StateKeys|] == StateKeys;
    }

    /** The `stopPendingTasks` mutation, which the action of that name commits at once. */
    method StopPendingTasks()
      modifies this`tasks
      ensures tasks == Remove(old(tasks), StateIs("RUNNING"))
    {
      tasks := Remove(tasks, StateIs("RUNNING"));
    }

    /** The `stopTask` mutation, which the action of that name commits at once. */
    method StopTask(name: string)
      modifies this`tasks
      ensures tasks == Remove(old(tasks), NameIs(name))
    {
      tasks := Remove(tasks, NameIs(name));
    }

    /** The `deleteDoneTasks` mutation, which the action of that name commits at once. */
    method DeleteDoneTasks()
      modifies this`tasks
      ensures tasks == Remove(old(tasks), StateIs("DONE"))
    {
      tasks := Remove(tasks, StateIs("DONE"));
    }

    /** The `updateTasks` mutation; `loadTasks` commits it with the list the backend answers. */
    method UpdateTasks(raw: seq<Task>)
      modifies this`tasks
      ensures tasks == raw
    {
      tasks := raw;
    }

    /** The `setPollHandle` mutation; `startPollTasks` commits it with the handle of its timer. */
    method SetPollHandle(handle: Handle)
      modifies this`pollHandle
      ensures pollHandle == Some(handle)
    {
      pollHandle := Some(handle);
    }

    /**
     * The `stopPolling` mutation (and the `stopPollTasks` action): hands
     * the current handle, if any, to `clearInterval` and forgets it.
     */
    method StopPolling() returns (cleared: Option<Handle>)
      modifies this`pollHandle
      ensures cleared == old(pollHandle)
      ensures pollHandle == None
    {
      cleared := pollHandle;
      pollHandle := None;
    }

    /** The `resetExtractForm` mutation: `ocr` only goes back to its initial value. */
    method ResetExtractForm()
      modifies this`form
      ensures form == old(form).(ocr := InitialForm().ocr)
    {
      form := form.(ocr := InitialForm().ocr);
    }

    /** The `resetFindNamedEntitiesForm` mutation: `pipeline` and `offline` only go back to their initial values. */
    method ResetFindNamedEntitiesForm()
      modifies this`form
      ensures form == old(form).(pipeline := InitialForm().pipeline, offline := InitialForm().offline)
    {
      form := form.(pipeline := InitialForm().pipeline);
      form := form.(offline := InitialForm().offline);
    }

    /** The `submitExtract` action: the options it sends. */
    method SubmitExtract() returns (options: IndexOptions)
      ensures options == ExtractRequest(form)
    {
      options := IndexOptions(form.ocr, form.filter);
    }

    /** The `submitFindNamedEntities` action: the call it makes, if any. */
    method SubmitFindNamedEntities() returns (call: Option<FindNames>)
      ensures call == FindNamesRequest(form)
    {
      call := FindNamesRequest(form);
    }
  }

  /** After `resetExtractForm` the extraction runs without OCR and keeps its filter option. */
  lemma ResetExtractRequest(form: Form)
    ensures ExtractRequest(form.(ocr := InitialForm().ocr)) == IndexOptions(false, form.filter)
  {
  }

  /** After `resetFindNamedEntitiesForm` the named-entity call is the default one, whatever the form held. */
  lemma ResetFindNamesRequest(form: Form)
    ensures FindNamesRequest(form.(pipeline := InitialForm().pipeline, offline := InitialForm().offline))
         == FindNamesRequest(InitialForm())
  {
  }
}
