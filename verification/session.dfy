/** The component state of Frontend/src/App.jsx and its persistence: the
    startup restore (:15-23), the three write-on-change effects (:28-40), the
    submit transition (:42-57) with the responder's answer as a parameter,
    editing the goal (:137), ticking a checkbox (:82-89) and the reset
    (:111-119).  The browser's `localStorage` is an in-memory map. */
module Session {
  import opened Wrappers
  import opened Text
  import opened Progress

  const GoalKey: string := "eduaid_goal"
  const RoadmapKey: string := "eduaid_roadmap"
  const ProgressKey: string := "eduaid_progress"

  /** The message shown when the responder fails (App.jsx:53). */
  const SubmitError: string := "Error generating roadmap! Please try again later."

  /** A stored value: plain text, or the `JSON.stringify` of a progress map,
      kept as the map itself (stringify then parse is the identity on it). */
  datatype Blob = Str(text: string) | Serialized(entries: ProgressMap)

  type Store = map<string, Blob>

  /** The component's state: the goal input, the raw roadmap text, the
      loading flag, the error message, the progress map, and the store. */
  datatype State = State(
    goal: string,
    roadmap: string,
    loading: bool,
    error: string,
    progress: ProgressMap,
    store: Store)

  /** The responder's answer to one submission: the roadmap text, or a
      transport or server failure. */
  datatype Response = Generated(text: string) | Failed

  /** `JSON.parse` threw on the stored progress (App.jsx:17 does not catch). */
  datatype RestoreError = MalformedProgress

  /** The initial `useState` values (App.jsx:6-11) over a given store. */
  function Fresh(store: Store): (s: State)
    ensures s.goal == "" && s.roadmap == "" && s.progress == map[] && !s.loading && s.error == ""
    ensures s.store == store
  {
    State("", "", false, "", map[], store)
  }

  /** JavaScript truthiness of what `getItem` returned: an empty string is
      falsy; the text of a serialised map is never empty. */
  function Truthy(b: Blob): (r: bool)
    ensures b.Str? ==> (r <==> |b.text| > 0)
    ensures b.Serialized? ==> r
  {
    match b
    case Str(s) => s != ""
    case Serialized(_) => true
  }

  /** The three write-on-change effects (App.jsx:28-40), in declaration
      order, after a render that moved the state from `prev` to `next`: a
      field whose value changed is written when it is truthy (non-empty goal
      or roadmap, progress with at least one key) and never removed. */
  function Persist(prev: State, next: State): (r: State)
    ensures r == next.(store := r.store)
    ensures forall k :: k != GoalKey && k != RoadmapKey && k != ProgressKey ==>
              && (k in r.store <==> k in next.store)
              && (k in next.store ==> r.store[k] == next.store[k])
    ensures GoalKey in r.store <==>
              GoalKey in next.store || (next.goal != prev.goal && next.goal != "")
    ensures GoalKey in r.store ==>
              r.store[GoalKey] ==
                if next.goal != prev.goal && next.goal != "" then Str(next.goal)
                else next.store[GoalKey]
    ensures RoadmapKey in r.store <==>
              RoadmapKey in next.store || (next.roadmap != prev.roadmap && next.roadmap != "")
    ensures RoadmapKey in r.store ==>
              r.store[RoadmapKey] ==
                if next.roadmap != prev.roadmap && next.roadmap != "" then Str(next.roadmap)
                else next.store[RoadmapKey]
    ensures ProgressKey in r.store <==>
              ProgressKey in next.store || (next.progress != prev.progress && |next.progress| > 0)
    ensures ProgressKey in r.store ==>
              r.store[ProgressKey] ==
                if next.progress != prev.progress && |next.progress| > 0
                then Serialized(next.progress)
                else next.store[ProgressKey]
  {
    var s0 := next.store;
    var s1 := if next.goal != prev.goal && next.goal != "" then s0[GoalKey := Str(next.goal)]
              else s0;
    var s2 := if next.progress != prev.progress && |next.progress| > 0
              then s1[ProgressKey := Serialized(next.progress)]
              else s1;
    var s3 := if next.roadmap != prev.roadmap && next.roadmap != ""
              then s2[RoadmapKey := Str(next.roadmap)]
              else s2;
    next.(store := s3)
  }

  /** Reads a text field at startup: `if (saved) set(saved)`. */
  function RestoreText(store: Store, key: string): (r: string)
    ensures key in store && store[key].Str? ==> r == store[key].text
    ensures key !in store || store[key].Serialized? ==> r == ""
  {
    if key in store && store[key].Str? then store[key].text else ""
  }

  /** The startup effect (App.jsx:15-23) on the initial state, followed by the
      write-back its updates trigger.  A truthy stored progress is parsed;
      stored text rather than a serialised map stands for text that is not
      valid JSON, which makes `JSON.parse` throw and aborts the effect.
      Otherwise goal, roadmap and progress are restored from their keys,
      absent or empty ones giving the defaults, and the store is left as it
      was. */
  function Restore(store: Store): (r: Result<State, RestoreError>)
    ensures r.Failure? <==>
              ProgressKey in store && store[ProgressKey].Str? && store[ProgressKey].text != ""
    ensures r.Success? ==> r.value.store == store && !r.value.loading && r.value.error == ""
    ensures r.Success? ==> r.value.goal == RestoreText(store, GoalKey)
    ensures r.Success? ==> r.value.roadmap == RestoreText(store, RoadmapKey)
    ensures r.Success? ==>
              r.value.progress ==
                if ProgressKey in store && store[ProgressKey].Serialized?
                then store[ProgressKey].entries
                else map[]
  {
    var saved: Option<Blob> :=
      if ProgressKey in store && Truthy(store[ProgressKey]) then Some(store[ProgressKey]) else None;
    match saved
    case Some(Str(_)) => Failure(MalformedProgress)
    case Some(Serialized(m)) => Success(Load(store, m))
    case None => Success(Load(store, map[]))
  }

  /** The rest of the startup effect once the progress is read: the roadmap
      and goal are read, then the write-back puts back what was read. */
  function Load(store: Store, progress: ProgressMap): (r: State)
    requires |progress| > 0 ==> ProgressKey in store && store[ProgressKey] == Serialized(progress)
    ensures r.store == store && !r.loading && r.error == "" && r.progress == progress
    ensures r.goal == RestoreText(store, GoalKey) && r.roadmap == RestoreText(store, RoadmapKey)
  {
    var initial := Fresh(store);
    var next := initial.(progress := progress,
                         roadmap := RestoreText(store, RoadmapKey),
                         goal := RestoreText(store, GoalKey));
    Persist(initial, next)
  }

  /** Typing in the goal field (App.jsx:137), then its effect. */
  function EditGoal(s: State, goal: string): (r: State)
    ensures r.goal == goal && r.roadmap == s.roadmap && r.progress == s.progress
    ensures r.loading == s.loading && r.error == s.error
    ensures r.store ==
              if goal != s.goal && goal != "" then s.store[GoalKey := Str(goal)] else s.store
  {
    Persist(s, s.(goal := goal))
  }

  /** Ticking checkbox `index` of section `name` (App.jsx:82-89, :101), then
      the progress effect, which always writes since the map now holds the
      toggled key. */
  function ToggleTask(s: State, name: string, index: nat): (r: State)
    ensures r == s.(progress := Toggle(s.progress, name, index), store := r.store)
    ensures r.store == s.store[ProgressKey := Serialized(Toggle(s.progress, name, index))]
  {
    var next := s.(progress := Toggle(s.progress, name, index));
    assert next.progress != s.progress by {
      var key := Key(name, index);
      assert next.progress[key] != Checked(s.progress, key);
    }
    Persist(s, next)
  }

  /** A goal that is empty after trimming (App.jsx:44). */
  predicate BlankGoal(s: State) {
    Trim(s.goal) == []
  }

  /** `!goal.trim()` holds exactly when the goal is empty or all whitespace. */
  lemma BlankGoalIff(s: State)
    ensures BlankGoal(s) <==> AllWhitespace(s.goal)
  {
  }

  /** The synchronous half of `handleSubmit` (App.jsx:46-48): loading on, the
      error and the roadmap cleared.  The cleared roadmap is not written (an
      empty value never is), so the store keeps the previous one. */
  function BeginSubmit(s: State): (r: State)
    ensures r.loading && r.error == "" && r.roadmap == ""
    ensures r.goal == s.goal && r.progress == s.progress && r.store == s.store
  {
    Persist(s, s.(loading := true, error := "", roadmap := ""))
  }

  /** The asynchronous half (App.jsx:50-56): the responder's text becomes the
      roadmap, or a failure sets the fixed error message; loading ends either
      way. */
  function FinishSubmit(s: State, response: Response): (r: State)
    ensures !r.loading && r.goal == s.goal && r.progress == s.progress
    ensures response.Generated? ==> r.roadmap == response.text && r.error == s.error
    ensures response.Failed? ==>
              r.roadmap == s.roadmap && r.error == SubmitError && r.store == s.store
    ensures response.Generated? ==>
              r.store ==
                if response.text != s.roadmap && response.text != ""
                then s.store[RoadmapKey := Str(response.text)]
                else s.store
  {
    var next := match response
      case Generated(text) => s.(roadmap := text, loading := false)
      case Failed => s.(error := SubmitError, loading := false);
    Persist(s, next)
  }

  /** `handleSubmit` as a whole.  A blank goal changes nothing.  Otherwise
      the roadmap is cleared and then replaced by the responder's text, or
      left empty with the error message on failure; loading ends false and
      the progress map is untouched. */
  function Submit(s: State, response: Response): (r: State)
    ensures BlankGoal(s) ==> r == s
    ensures !BlankGoal(s) ==> !r.loading && r.goal == s.goal && r.progress == s.progress
    ensures !BlankGoal(s) && response.Generated? ==>
              r.roadmap == response.text && r.error == ""
              && r.store ==
                   if response.text != "" then s.store[RoadmapKey := Str(response.text)]
                   else s.store
    ensures !BlankGoal(s) && response.Failed? ==>
              r.roadmap == "" && r.error == SubmitError && r.store == s.store
  {
    if BlankGoal(s) then s
    else FinishSubmit(BeginSubmit(s), response)
  }

  /** `clearAll` (App.jsx:111-119): goal, roadmap and progress back to their
      defaults and the three keys removed; the effects write nothing since
      every value is now empty.  The error message and loading flag stay. */
  function ClearAll(s: State): (r: State)
    ensures r.goal == "" && r.roadmap == "" && r.progress == map[]
    ensures r.loading == s.loading && r.error == s.error
    ensures r.store == s.store - {GoalKey, RoadmapKey, ProgressKey}
  {
    var next := s.(goal := "", roadmap := "", progress := map[],
                   store := s.store - {GoalKey, RoadmapKey, ProgressKey});
    Persist(s, next)
  }

  /** Every non-empty field is what the store holds under its key. */
  predicate Synced(s: State) {
    && (s.goal != "" ==> GoalKey in s.store && s.store[GoalKey] == Str(s.goal))
    && (s.roadmap != "" ==> RoadmapKey in s.store && s.store[RoadmapKey] == Str(s.roadmap))
    && (|s.progress| > 0 ==>
          ProgressKey in s.store && s.store[ProgressKey] == Serialized(s.progress))
  }

  /** Each key holds the kind of value this component writes there. */
  predicate WellTyped(store: Store) {
    && (GoalKey in store ==> store[GoalKey].Str?)
    && (RoadmapKey in store ==> store[RoadmapKey].Str?)
    && (ProgressKey in store ==> store[ProgressKey].Serialized?)
  }

  /** A restored state is in sync with its store, and a store of the kind
      this component writes always restores. */
  lemma RestoreSynced(store: Store)
    ensures Restore(store).Success? ==> Synced(Restore(store).value)
    ensures WellTyped(store) ==> Restore(store).Success?
  {
  }

  /** Editing the goal keeps the state in sync with a well-typed store. */
  lemma EditGoalKeepsSync(s: State, goal: string)
    requires Synced(s) && WellTyped(s.store)
    ensures Synced(EditGoal(s, goal)) && WellTyped(EditGoal(s, goal).store)
  {
  }

  /** Ticking a checkbox keeps the state in sync with a well-typed store. */
  lemma ToggleTaskKeepsSync(s: State, name: string, index: nat)
    requires Synced(s) && WellTyped(s.store)
    ensures Synced(ToggleTask(s, name, index)) && WellTyped(ToggleTask(s, name, index).store)
  {
  }

  /** A submission, whatever the responder answers, keeps the state in sync
      with a well-typed store. */
  lemma SubmitKeepsSync(s: State, response: Response)
    requires Synced(s) && WellTyped(s.store)
    ensures Synced(Submit(s, response)) && WellTyped(Submit(s, response).store)
  {
  }

  /** The reset keeps the state in sync with a well-typed store. */
  lemma ClearAllKeepsSync(s: State)
    requires Synced(s) && WellTyped(s.store)
    ensures Synced(ClearAll(s)) && WellTyped(ClearAll(s).store)
  {
  }

  /** Reloading a synced session gives back every non-empty field. */
  lemma ReloadRestoresSynced(s: State)
    requires Synced(s) && WellTyped(s.store)
    ensures Restore(s.store).Success?
    ensures s.goal != "" ==> Restore(s.store).value.goal == s.goal
    ensures s.roadmap != "" ==> Restore(s.store).value.roadmap == s.roadmap
    ensures |s.progress| > 0 ==> Restore(s.store).value.progress == s.progress
  {
  }

  /** Saving a progress map and loading it back gives every key the same
      reading, absent keys reading false. */
  lemma ProgressRoundTrip(s: State, name: string, index: nat)
    ensures var saved := ToggleTask(s, name, index);
      && Restore(saved.store).Success?
      && forall k :: Checked(Restore(saved.store).value.progress, k) == Checked(saved.progress, k)
  {
  }

  /** After a reset, a reload comes back with all defaults. */
  lemma ReloadAfterClear(s: State)
    ensures var cleared := ClearAll(s);
      Restore(cleared.store) == Success(Fresh(cleared.store))
  {
  }

  /** A failed submission clears the roadmap on screen but not in the store,
      so a reload brings the previous roadmap back. */
  lemma FailedSubmitKeepsStoredRoadmap(s: State)
    requires Synced(s) && WellTyped(s.store)
    requires !BlankGoal(s) && s.roadmap != ""
    ensures var r := Submit(s, Failed);
      && r.roadmap == ""
      && Restore(r.store).Success?
      && Restore(r.store).value.roadmap == s.roadmap
  {
  }

  /** Emptying the goal field is not persisted, so a reload brings the last
      non-empty goal back. */
  lemma EmptiedGoalComesBack(s: State)
    requires Synced(s) && WellTyped(s.store) && s.goal != ""
    ensures var r := EditGoal(s, "");
      && r.goal == ""
      && Restore(r.store).Success?
      && Restore(r.store).value.goal == s.goal
  {
  }
}
