/**
 * The project modal of the home page: which project is selected and whether
 * the details dialog is open.
 */
module Home {
  import opened Wrappers

  /** The two state fields of the page. */
  datatype ModalState<P> = ModalState(selected: Option<P>, open: bool)

  /** The page's events: a project card asks for details, or the dialog closes. */
  datatype ModalEvent<P> = SelectProject(project: P) | CloseModal

  /** Nothing selected, dialog closed. */
  function Initial<P>(): ModalState<P> {
    ModalState(None, false)
  }

  /** The dialog is only ever open on a selected project. */
  predicate Consistent<P>(s: ModalState<P>) {
    s.open ==> s.selected.Some?
  }

  /** The effect of one event: `handleProjectSelect` or `handleModalClose`. */
  function Step<P>(s: ModalState<P>, e: ModalEvent<P>): (r: ModalState<P>)
    ensures Consistent(r)
    ensures r.open <==> e.SelectProject?
    ensures e.SelectProject? ==> r.selected == Some(e.project)
    ensures e.CloseModal? ==> r == Initial()
  {
    match e
    case SelectProject(p) => ModalState(Some(p), true)
    case CloseModal => ModalState(None, false)
  }

  /** The state after a series of events. */
  function Replay<P>(s: ModalState<P>, events: seq<ModalEvent<P>>): ModalState<P>
    decreases |events|
  {
    if events == [] then s else Replay(Step(s, events[0]), events[1..])
  }

  /**
   * Only the last event matters: after it, the selection is the last project
   * selected and the dialog is open, or nothing is selected and it is closed.
   */
  lemma {:induction false} ReplayLastWins<P>(s: ModalState<P>, events: seq<ModalEvent<P>>)
    requires events != []
    ensures Replay(s, events) == Step(s, events[|events| - 1])
    decreases |events|
  {
    if |events| > 1 {
      ReplayLastWins(Step(s, events[0]), events[1..]);
      assert events[1..][|events[1..]| - 1] == events[|events| - 1];
    }
  }

  /** From the initial state, every reachable state is consistent. */
  lemma {:induction false} ReplayConsistent<P>(events: seq<ModalEvent<P>>)
    ensures Consistent(Replay(Initial(), events))
  {
    if events != [] {
      ReplayLastWins(Initial(), events);
    }
  }

  /** The page component's state. */
  class HomePage<P> {
    var selectedProject: Option<P>
    var isModalOpen: bool

    function State(): ModalState<P>
      reads this
    {
      ModalState(selectedProject, isModalOpen)
    }

    ghost predicate Valid()
      reads this
    {
      Consistent(State())
    }

    constructor ()
      ensures Valid() && State() == Initial()
      ensures selectedProject == None && !isModalOpen
    {
      selectedProject := None;
      isModalOpen := false;
    }

    /** `handleProjectSelect`: select `project` and open the dialog. */
    method HandleProjectSelect(project: P)
      requires Valid()
      modifies this
      ensures Valid() && State() == Step(old(State()), SelectProject(project))
      ensures selectedProject == Some(project) && isModalOpen
    {
      selectedProject := Some(project);
      isModalOpen := true;
    }

    /** `handleModalClose`, also what the dialog calls on any open-state change: close and clear. */
    method HandleModalClose()
      requires Valid()
      modifies this
      ensures Valid() && State() == Step(old(State()), CloseModal)
      ensures selectedProject == None && !isModalOpen
    {
      isModalOpen := false;
      selectedProject := None;
    }
  }

  /** Selecting two projects in a row leaves the second one shown. */
  method SelectTwice<P>(page: HomePage<P>, first: P, second: P)
    requires page.Valid()
    modifies page
    ensures page.Valid() && page.isModalOpen && page.selectedProject == Some(second)
  {
    page.HandleProjectSelect(first);
    page.HandleProjectSelect(second);
  }
}
