/** The floor-plan loading reducer of the builder application
    (apps/msh-builder/src/store/reducers/floorPlan.ts): a three-action state machine over
    the fetched floor-plan document. The document is plain data here; the action creators
    only provide the action type. */
module FloorPlanReducer {
  import opened Wrappers

  /** A corner record of a fetched document (`ICorner`). */
  datatype CornerDoc = CornerDoc(id: string, x: real, y: real)

  /** A wall record of a fetched document (`IWall`, without its attached items). */
  datatype WallDoc = WallDoc(id: string, start: CornerDoc, end: CornerDoc, thickness: real)

  /** `IFloorPlan`. */
  datatype FloorPlanDoc = FloorPlanDoc(id: string, corners: seq<CornerDoc>, walls: seq<WallDoc>)

  /** `FloorPlanState`; a `null` error is `None`. */
  datatype State = State(pending: bool, floorplan: FloorPlanDoc, error: Option<string>)

  /** The three fetch actions, and any other action the store dispatches. */
  datatype Action =
    | FetchRequest
    | FetchSuccess(floorplan: FloorPlanDoc)
    | FetchFailure(error: string)
    | Other(kind: string)

  const EmptyFloorPlan: FloorPlanDoc := FloorPlanDoc("", [], [])

  const InitialState: State := State(false, EmptyFloorPlan, None)

  /** The reducer; an undefined incoming state is the initial state. */
  function Reduce(state: Option<State>, action: Action): (r: State)
    ensures var s := state.GetOr(InitialState);
      && (r.pending <==> action.FetchRequest? || (action.Other? && s.pending))
      && (action.FetchRequest? || action.Other? ==> r.floorplan == s.floorplan && r.error == s.error)
      && (action.FetchSuccess? ==> r.floorplan == action.floorplan && r.error == None)
      && (action.FetchFailure? ==> r.floorplan == EmptyFloorPlan && r.error == Some(action.error))
  {
    var s := state.GetOr(InitialState);
    match action
    case FetchRequest => s.(pending := true)
    case FetchSuccess(fp) => s.(pending := false, floorplan := fp, error := None)
    case FetchFailure(e) => s.(pending := false, floorplan := EmptyFloorPlan, error := Some(e))
    case Other(_) => s
  }

  /** The initial state: not pending, the empty plan, no error. */
  lemma InitialStateIsEmpty()
    ensures Reduce(None, Other("")) == State(false, FloorPlanDoc("", [], []), None)
  {
  }

  /** Dispatching the same action twice is the same as dispatching it once. */
  lemma ReduceIdempotent(s: State, action: Action)
    ensures Reduce(Some(Reduce(Some(s), action)), action) == Reduce(Some(s), action)
  {
  }

  /** The state after a sequence of actions, starting from an undefined state. */
  function Run(actions: seq<Action>): State {
    if actions == [] then InitialState
    else Reduce(Some(Run(actions[..|actions| - 1])), actions[|actions| - 1])
  }

  /** The last action among the three fetch actions, if any. */
  function LastFetch(actions: seq<Action>): Option<Action> {
    if actions == [] then None
    else if actions[|actions| - 1].Other? then LastFetch(actions[..|actions| - 1])
    else Some(actions[|actions| - 1])
  }

  /** The last success or failure, if any. */
  function LastOutcome(actions: seq<Action>): Option<Action> {
    if actions == [] then None
    else if actions[|actions| - 1].FetchSuccess? || actions[|actions| - 1].FetchFailure? then
      Some(actions[|actions| - 1])
    else LastOutcome(actions[..|actions| - 1])
  }

  /** After any sequence of actions, the store is pending exactly when the last fetch action
      was a request; the plan is that of the last success, and empty if the last outcome
      was a failure or there was none; the error is that of the last outcome if it was a
      failure, and absent otherwise. */
  lemma {:induction false} RunSummary(actions: seq<Action>)
    ensures Run(actions).pending <==> LastFetch(actions) == Some(FetchRequest)
    ensures Run(actions).floorplan
         == match LastOutcome(actions)
            case Some(FetchSuccess(fp)) => fp
            case _ => EmptyFloorPlan
    ensures Run(actions).error
         == match LastOutcome(actions)
            case Some(FetchFailure(e)) => Some(e)
            case _ => None
  {
    if actions != [] {
      RunSummary(actions[..|actions| - 1]);
    }
  }
}
