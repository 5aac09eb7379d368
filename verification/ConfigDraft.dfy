/** The configuration form: edits, loads, saves, filter updates and start/stop actions that interleave. */
module ConfigDraft {
  import opened RuleMerge
  import opened Wrappers

  // -------------------------------------------------------------------- the form

  /** What the form shows: the fields an answer of the server can rebase one by one, all other fields that count as
      configuration, and what the fingerprint leaves out. */
  datatype Form = Form(enabled: bool, blacklist: string, rewrites: string, others: string, display: string)

  /** The configuration a form or a fingerprint text stands for. */
  datatype Fingerprint = Fingerprint(enabled: bool, blacklist: string, rewrites: string, others: string)

  function FingerprintOf(form: Form): Fingerprint {
    Fingerprint(form.enabled, form.blacklist, form.rewrites, form.others)
  }

  /** Two forms hold the same configuration: they differ in nothing but what is only shown. */
  predicate SameConfig(f: Form, g: Form) {
    f.enabled == g.enabled && f.blacklist == g.blacklist && f.rewrites == g.rewrites && f.others == g.others
  }

  /** A fingerprint tells two configurations apart, and nothing else. */
  lemma FingerprintExact(f: Form, g: Form)
    ensures FingerprintOf(f) == FingerprintOf(g) <==> SameConfig(f, g)
  {
  }

  /** Fields the server is authoritative for; a field that is absent stays. */
  datatype Authoritative = Enabled(enabled: bool) | Rules(blacklist: string, rewrites: string)

  function RebaseConfigFingerprint(saved: Option<Fingerprint>, fields: Authoritative): Option<Fingerprint> {
    match saved
    case None => None
    case Some(f) =>
      match fields
      case Enabled(enabled) => Some(f.(enabled := enabled))
      case Rules(blacklist, rewrites) => Some(f.(blacklist := blacklist, rewrites := rewrites))
  }

  // ------------------------------------------------------------------- the state

  /** What a call remembers across its `await`. */
  datatype Pending =
    | Load(force: bool, draftAtStart: Option<Fingerprint>, savedAtStart: Option<Fingerprint>)
    | Save(submitted: Form)
    | Update(submittedUpdate: Form, savedBefore: Option<Fingerprint>)
    | Switch(enabledAtStart: bool)
    | RuleCall

  type CallId = int

  datatype State = State(form: Form, saved: Option<Fingerprint>, dirty: bool, loaded: bool, microtasks: nat,
                         calls: map<CallId, Pending>)

  const EMPTY_FORM := Form(false, "", "", "", "")

  const START := State(EMPTY_FORM, None, false, false, 0, map[])

  function UpdateDirty(s: State): State {
    if !s.loaded then s else s.(dirty := Some(FingerprintOf(s.form)) != s.saved)
  }

  function DraftNow(s: State): Option<Fingerprint> {
    if s.loaded then Some(FingerprintOf(s.form)) else None
  }

  predicate ShouldPreserveConfigDraft(loaded: bool, force: bool, dirty: bool, savedAtStart: Option<Fingerprint>,
                                      savedNow: Option<Fingerprint>, draftAtStart: Option<Fingerprint>,
                                      draftNow: Option<Fingerprint>)
  {
    loaded && ((!force && dirty) || savedNow != savedAtStart || draftNow != draftAtStart)
  }

  predicate Preserves(s: State, load: Pending)
    requires load.Load?
  {
    ShouldPreserveConfigDraft(s.loaded, load.force, s.dirty, load.savedAtStart, s.saved, load.draftAtStart, DraftNow(s))
  }

  // ------------------------------------------------------------------------ steps

  datatype Step =
    | Edit(newForm: Form)                         // an input event: the dirty flag follows in a microtask
    | Drain                                       // that microtask
    | Change(changedForm: Form)                   // a handler that changes the form and updates the flag itself
    | SyncMetadata(display: string)               // rule counts and times of an update arrive, in the background
    | BeginLoad(id: CallId, force: bool)
    | EndLoad(id: CallId, config: Option<Form>)   // the form the answer fills in, or a failure
    | BeginSave(id: CallId)
    | EndSave(id: CallId, stored: bool)
    | BeginUpdate(id: CallId)
    | EndUpdate(id: CallId, updated: bool)
    | BeginAction(id: CallId)
    | EndAction(id: CallId, running: Option<bool>)
    | BeginRule(id: CallId)
    | EndRule(id: CallId, action: Action, answer: Option<RuleTexts>)   // the texts the server stored, or a failure

  function Begun(s: State, id: CallId, call: Pending): State {
    s.(calls := s.calls[id := call])
  }

  function Finished(s: State, id: CallId): State {
    s.(calls := s.calls - {id})
  }

  function Loaded(s: State, load: Pending, config: Option<Form>): State
    requires load.Load?
  {
    match config
    case None => s
    case Some(form) =>
      if Preserves(s, load) then s
      else s.(form := form, loaded := true, saved := Some(FingerprintOf(form)), dirty := false)
  }

  function Saved(s: State, submitted: Form): State {
    s.(saved := Some(FingerprintOf(submitted)), dirty := FingerprintOf(s.form) != FingerprintOf(submitted))
  }

  function Updated(s: State, submitted: Form, savedBefore: Option<Fingerprint>): State {
    UpdateDirty(if s.saved == savedBefore then s.(saved := Some(FingerprintOf(submitted))) else s)
  }

  function Reconciled(s: State, enabled: bool, enabledAtStart: bool): State {
    var rebased := s.(saved := RebaseConfigFingerprint(s.saved, Enabled(enabled)));
    UpdateDirty(if s.form.enabled == enabledAtStart then rebased.(form := s.form.(enabled := enabled)) else rebased)
  }

  function Texts(form: Form): RuleTexts {
    RuleTexts(form.blacklist, form.rewrites)
  }

  function WithTexts(form: Form, texts: RuleTexts): Form {
    form.(blacklist := texts.blacklist, rewrites := texts.rewrites)
  }

  /** The draft gets the merged texts, the saved fingerprint the server's. */
  function TextsTaken(s: State, merged: RuleTexts, answer: RuleTexts): State {
    UpdateDirty(s.(form := WithTexts(s.form, merged),
                   saved := RebaseConfigFingerprint(s.saved, Rules(answer.blacklist, answer.rewrites))))
  }

  /** An answer without a rule changes nothing. */
  function RuleMerged(s: State, action: Action, answer: RuleTexts): State {
    match Merge(Texts(s.form), answer, action)
    case None => s
    case Some(merged) => TextsTaken(s, merged, answer)
  }

  /** A step of the event loop. Handlers and continuations of calls run only when no microtask is left; a call's end
      needs its begin. */
  predicate Possible(s: State, step: Step) {
    match step
    case Edit(_) => true
    case Drain => s.microtasks > 0
    case Change(_) => s.microtasks == 0
    case SyncMetadata(_) => s.microtasks == 0
    case BeginLoad(id, _) => s.microtasks == 0 && id !in s.calls
    case BeginSave(id) => s.microtasks == 0 && id !in s.calls
    case BeginUpdate(id) => s.microtasks == 0 && id !in s.calls
    case BeginAction(id) => s.microtasks == 0 && id !in s.calls
    case BeginRule(id) => s.microtasks == 0 && id !in s.calls
    case EndLoad(id, _) => s.microtasks == 0 && id in s.calls && s.calls[id].Load?
    case EndSave(id, _) => s.microtasks == 0 && id in s.calls && s.calls[id].Save?
    case EndUpdate(id, _) => s.microtasks == 0 && id in s.calls && s.calls[id].Update?
    case EndAction(id, _) => s.microtasks == 0 && id in s.calls && s.calls[id].Switch?
    case EndRule(id, _, _) => s.microtasks == 0 && id in s.calls && s.calls[id].RuleCall?
  }

  function Next(s: State, step: Step): State
    requires Possible(s, step)
  {
    match step
    case Edit(form) => s.(form := form, microtasks := s.microtasks + 1)
    case Drain => UpdateDirty(s.(microtasks := s.microtasks - 1))
    case Change(form) => UpdateDirty(s.(form := form))
    case SyncMetadata(display) => s.(form := s.form.(display := display))
    case BeginLoad(id, force) => Begun(s, id, Load(force, DraftNow(s), s.saved))
    case BeginSave(id) => Begun(s, id, Save(s.form))
    case BeginUpdate(id) => Begun(s, id, Update(s.form, s.saved))
    case BeginAction(id) => Begun(s, id, Switch(s.form.enabled))
    case BeginRule(id) => Begun(s, id, RuleCall)
    case EndLoad(id, config) => Loaded(Finished(s, id), s.calls[id], config)
    case EndSave(id, stored) =>
      if stored then Saved(Finished(s, id), s.calls[id].submitted) else Finished(s, id)
    case EndUpdate(id, updated) =>
      if updated then Updated(Finished(s, id), s.calls[id].submittedUpdate, s.calls[id].savedBefore)
      else Finished(s, id)
    case EndAction(id, running) =>
      (match running
       case Some(enabled) => Reconciled(Finished(s, id), enabled, s.calls[id].enabledAtStart)
       case None => Finished(s, id))
    case EndRule(id, action, answer) =>
      (match answer
       case Some(texts) => RuleMerged(Finished(s, id), action, texts)
       case None => Finished(s, id))
  }

  /** A form's texts after a rule of the answer went in: the lines that are no rules of its domain are as before, and
      the rule stands last where it belongs. */
  ghost predicate Takes(before: Form, after: Form, action: Action, answer: RuleTexts) {
    var line := IntendedLine(answer, action);
    && line != "" && RuleDomain(line, action) != ""
    && MergedInto(Texts(before), Texts(after), line, RuleDomain(line, action), action)
  }

  lemma MergeTakes(form: Form, action: Action, answer: RuleTexts)
    ensures var merged := Merge(Texts(form), answer, action);
            merged.Some? ==> Takes(form, WithTexts(form, merged.value), action, answer)
  {
    var merged := Merge(Texts(form), answer, action);
    if merged.Some? {
      MergeKeepsOthers(Texts(form), answer, action);
    }
  }

  /** The module's variables, changed by its handlers. */
  class ConfigView {
    var form: Form
    var savedConfigFingerprint: Option<Fingerprint>
    var configDirty: bool
    var configLoaded: bool
    var microtasks: nat
    var calls: map<CallId, Pending>

    ghost function Model(): State
      reads this
    {
      State(form, savedConfigFingerprint, configDirty, configLoaded, microtasks, calls)
    }

    constructor ()
      ensures Model() == START
    {
      form, savedConfigFingerprint, configDirty := EMPTY_FORM, None, false;
      configLoaded, microtasks, calls := false, 0, map[];
    }

    method HandleConfigFieldChange(newForm: Form)
      modifies this
      ensures Model() == Next(old(Model()), Edit(newForm))
    {
      form := newForm;
      microtasks := microtasks + 1;
    }

    method RunMicrotask()
      requires microtasks > 0
      modifies this
      ensures Model() == Next(old(Model()), Drain)
    {
      microtasks := microtasks - 1;
      UpdateConfigDirtyState();
    }

    /** A handler that sets the form and the flag in one go. */
    method ChangeForm(newForm: Form)
      requires microtasks == 0
      modifies this
      ensures Model() == Next(old(Model()), Change(newForm))
    {
      form := newForm;
      UpdateConfigDirtyState();
    }

    /** Filter metadata is shown but is no configuration: the flag stays. */
    method SyncFilterUpdateMetadata(display: string)
      requires microtasks == 0
      modifies this
      ensures Model() == Next(old(Model()), SyncMetadata(display))
      ensures FingerprintOf(form) == FingerprintOf(old(form)) && configDirty == old(configDirty)
    {
      form := form.(display := display);
    }

    method UpdateConfigDirtyState()
      modifies this
      ensures Model() == UpdateDirty(old(Model()))
    {
      if !configLoaded {
        return;
      }
      configDirty := Some(FingerprintOf(form)) != savedConfigFingerprint;
    }

    /** The part of `loadConfig` before its `await`. */
    method StartLoad(id: CallId, force: bool)
      requires Possible(Model(), BeginLoad(id, force))
      modifies this
      ensures Model() == Next(old(Model()), BeginLoad(id, force))
    {
      var draftAtStart := if configLoaded then Some(FingerprintOf(form)) else None;
      calls := calls[id := Load(force, draftAtStart, savedConfigFingerprint)];
    }

    /** The part of `loadConfig` after its `await`. */
    method FinishLoad(id: CallId, config: Option<Form>)
      requires Possible(Model(), EndLoad(id, config))
      modifies this
      ensures Model() == Next(old(Model()), EndLoad(id, config))
      ensures form != old(form) ==> config == Some(form) && savedConfigFingerprint == Some(FingerprintOf(form))
      ensures form != old(form) ==> configLoaded && !configDirty
      ensures form != old(form) && old(configLoaded) ==>
                && old(calls)[id].draftAtStart == Some(FingerprintOf(old(form)))
                && old(calls)[id].savedAtStart == old(savedConfigFingerprint)
                && (old(calls)[id].force || !old(configDirty))
    {
      var load := calls[id];
      calls := calls - {id};
      if config.None? {
        return;
      }
      var draftNow := if configLoaded then Some(FingerprintOf(form)) else None;
      if ShouldPreserveConfigDraft(configLoaded, load.force, configDirty, load.savedAtStart, savedConfigFingerprint,
                                   load.draftAtStart, draftNow)
      {
        return;
      }
      form := config.value;
      configLoaded := true;
      savedConfigFingerprint := Some(FingerprintOf(form));
      configDirty := false;
    }

    method StartSave(id: CallId)
      requires Possible(Model(), BeginSave(id))
      modifies this
      ensures Model() == Next(old(Model()), BeginSave(id))
    {
      calls := calls[id := Save(form)];
    }

    method FinishSave(id: CallId, stored: bool)
      requires Possible(Model(), EndSave(id, stored))
      modifies this
      ensures Model() == Next(old(Model()), EndSave(id, stored))
      ensures form == old(form)
      ensures !stored ==> savedConfigFingerprint == old(savedConfigFingerprint) && configDirty == old(configDirty)
      ensures stored ==> savedConfigFingerprint == Some(FingerprintOf(old(calls)[id].submitted))
      ensures stored ==> (configDirty <==> Some(FingerprintOf(form)) != savedConfigFingerprint)
    {
      var submitted := calls[id].submitted;
      calls := calls - {id};
      if stored {
        savedConfigFingerprint := Some(FingerprintOf(submitted));
        configDirty := FingerprintOf(form) != FingerprintOf(submitted);
      }
    }

    method StartUpdate(id: CallId)
      requires Possible(Model(), BeginUpdate(id))
      modifies this
      ensures Model() == Next(old(Model()), BeginUpdate(id))
    {
      calls := calls[id := Update(form, savedConfigFingerprint)];
    }

    method FinishUpdate(id: CallId, updated: bool)
      requires Possible(Model(), EndUpdate(id, updated))
      modifies this
      ensures Model() == Next(old(Model()), EndUpdate(id, updated))
      ensures form == old(form)
      ensures old(savedConfigFingerprint) != old(calls)[id].savedBefore ==>
                savedConfigFingerprint == old(savedConfigFingerprint)
      ensures updated && configLoaded ==> (configDirty <==> Some(FingerprintOf(form)) != savedConfigFingerprint)
    {
      var update := calls[id];
      calls := calls - {id};
      if updated {
        if savedConfigFingerprint == update.savedBefore {
          savedConfigFingerprint := Some(FingerprintOf(update.submittedUpdate));
        }
        UpdateConfigDirtyState();
      }
    }

    method StartAction(id: CallId)
      requires Possible(Model(), BeginAction(id))
      modifies this
      ensures Model() == Next(old(Model()), BeginAction(id))
    {
      calls := calls[id := Switch(form.enabled)];
    }

    method ReconcileEnabledConfig(id: CallId, enabled: bool)
      requires Possible(Model(), EndAction(id, Some(enabled)))
      modifies this
      ensures Model() == Next(old(Model()), EndAction(id, Some(enabled)))
      ensures old(form.enabled) != old(calls)[id].enabledAtStart ==> form == old(form)
      ensures old(form.enabled) == old(calls)[id].enabledAtStart ==> form == old(form).(enabled := enabled)
      ensures savedConfigFingerprint.Some? ==> savedConfigFingerprint.value.enabled == enabled
      ensures configLoaded ==> (configDirty <==> Some(FingerprintOf(form)) != savedConfigFingerprint)
    {
      var draftAtActionStart := calls[id].enabledAtStart;
      calls := calls - {id};
      savedConfigFingerprint := RebaseConfigFingerprint(savedConfigFingerprint, Enabled(enabled));
      if form.enabled == draftAtActionStart {
        form := form.(enabled := enabled);
      }
      UpdateConfigDirtyState();
    }

    method StartRule(id: CallId)
      requires Possible(Model(), BeginRule(id))
      modifies this
      ensures Model() == Next(old(Model()), BeginRule(id))
    {
      calls := calls[id := RuleCall];
    }

    /** A start, stop or rule action that failed. */
    method Finish(id: CallId)
      modifies this
      ensures Model() == Finished(old(Model()), id)
    {
      calls := calls - {id};
    }

    method TakeTexts(merged: RuleTexts, answer: RuleTexts)
      modifies this
      ensures Model() == TextsTaken(old(Model()), merged, answer)
      ensures configLoaded ==> (configDirty <==> Some(FingerprintOf(form)) != savedConfigFingerprint)
    {
      form := form.(blacklist := merged.blacklist, rewrites := merged.rewrites);
      savedConfigFingerprint :=
        RebaseConfigFingerprint(savedConfigFingerprint, Rules(answer.blacklist, answer.rewrites));
      UpdateConfigDirtyState();
    }

    method FinishRule(id: CallId, action: Action, answer: RuleTexts)
      requires Possible(Model(), EndRule(id, action, Some(answer)))
      modifies this
      ensures Model() == Next(old(Model()), EndRule(id, action, Some(answer)))
    {
      calls := calls - {id};
      var merged := Merge(Texts(form), answer, action);
      if merged.Some? {
        TakeTexts(merged.value, answer);
      }
    }
  }

  // --------------------------------------------------------------------------- runs

  ghost predicate PossibleRun(s: State, steps: seq<Step>)
    decreases |steps|
  {
    steps == [] || (Possible(s, steps[0]) && PossibleRun(Next(s, steps[0]), steps[1..]))
  }

  ghost function RunFrom(s: State, steps: seq<Step>): State
    requires PossibleRun(s, steps)
    decreases |steps|
  {
    if steps == [] then s else RunFrom(Next(s, steps[0]), steps[1..])
  }

  lemma {:induction false} RunAppend(s: State, a: seq<Step>, b: seq<Step>)
    requires PossibleRun(s, a + b)
    ensures PossibleRun(s, a) && PossibleRun(RunFrom(s, a), b) && RunFrom(s, a + b) == RunFrom(RunFrom(s, a), b)
    decreases |a|
  {
    if a == [] {
      assert a + b == b;
    } else {
      assert (a + b)[1..] == a[1..] + b;
      RunAppend(Next(s, a[0]), a[1..], b);
    }
  }

  /** Once a configuration is loaded and no microtask is left, the flag says whether the draft differs from what is
      saved. */
  predicate FlagRight(s: State) {
    s.loaded && s.microtasks == 0 ==> (s.dirty <==> Some(FingerprintOf(s.form)) != s.saved)
  }

  lemma StepKeepsFlag(s: State, step: Step)
    requires FlagRight(s) && Possible(s, step)
    ensures FlagRight(Next(s, step))
  {
  }

  lemma {:induction false} FlagFrom(s: State, steps: seq<Step>)
    requires FlagRight(s) && PossibleRun(s, steps)
    ensures FlagRight(RunFrom(s, steps))
    decreases |steps|
  {
    if steps != [] {
      StepKeepsFlag(s, steps[0]);
      FlagFrom(Next(s, steps[0]), steps[1..]);
    }
  }

  // The form that counts as saved, followed through a run.

  /** The form last loaded, stored or rebased: a load that goes in and a save put theirs, an update the one it stored if
      nothing else was saved meanwhile; an action moves its switch and a rule its two texts to what the server has. */
  ghost function NextReference(s: State, reference: Option<Form>, step: Step): Option<Form>
    requires Possible(s, step)
  {
    match step
    case EndLoad(id, Some(form)) => if Preserves(s, s.calls[id]) then reference else Some(form)
    case EndSave(id, true) => Some(s.calls[id].submitted)
    case EndUpdate(id, true) =>
      if s.saved == s.calls[id].savedBefore then Some(s.calls[id].submittedUpdate) else reference
    case EndAction(_, Some(running)) => Switched(reference, running)
    case EndRule(_, action, Some(answer)) =>
      if Merge(Texts(s.form), answer, action).None? then reference else Retexted(reference, answer)
    case _ => reference
  }

  function Switched(reference: Option<Form>, enabled: bool): Option<Form> {
    match reference
    case None => None
    case Some(form) => Some(form.(enabled := enabled))
  }

  function Retexted(reference: Option<Form>, texts: RuleTexts): Option<Form> {
    match reference
    case None => None
    case Some(form) => Some(form.(blacklist := texts.blacklist, rewrites := texts.rewrites))
  }

  ghost function ReferenceFrom(s: State, reference: Option<Form>, steps: seq<Step>): Option<Form>
    requires PossibleRun(s, steps)
    decreases |steps|
  {
    if steps == [] then reference
    else ReferenceFrom(Next(s, steps[0]), NextReference(s, reference, steps[0]), steps[1..])
  }

  /** The form that counts as saved after a run. */
  ghost function Reference(steps: seq<Step>): Option<Form>
    requires PossibleRun(START, steps)
  {
    ReferenceFrom(START, None, steps)
  }

  predicate Stands(s: State, reference: Option<Form>) {
    && s.saved == (match reference case None => None case Some(form) => Some(FingerprintOf(form)))
    && (s.loaded ==> reference.Some?)
  }

  lemma StepKeepsReference(s: State, reference: Option<Form>, step: Step)
    requires Stands(s, reference) && Possible(s, step)
    ensures Stands(Next(s, step), NextReference(s, reference, step))
  {
  }

  lemma {:induction false} ReferenceStands(s: State, reference: Option<Form>, steps: seq<Step>)
    requires Stands(s, reference) && PossibleRun(s, steps)
    ensures Stands(RunFrom(s, steps), ReferenceFrom(s, reference, steps))
    decreases |steps|
  {
    if steps != [] {
      StepKeepsReference(s, reference, steps[0]);
      ReferenceStands(Next(s, steps[0]), NextReference(s, reference, steps[0]), steps[1..]);
    }
  }

  /** The flag of a state, against the form that counts as saved. */
  predicate FlagTells(s: State, reference: Option<Form>) {
    s.loaded && s.microtasks == 0 ==> reference.Some? && (s.dirty <==> !SameConfig(s.form, reference.value))
  }

  /** In every interleaving, once microtasks drain the dirty flag says whether the draft differs from the form last
      loaded, saved or rebased. */
  lemma FlagIsRight(steps: seq<Step>)
    requires PossibleRun(START, steps)
    ensures FlagRight(RunFrom(START, steps)) && FlagTells(RunFrom(START, steps), Reference(steps))
  {
    FlagFrom(START, steps);
    ReferenceStands(START, None, steps);
    var s, reference := RunFrom(START, steps), Reference(steps);
    if reference.Some? {
      FingerprintExact(s.form, reference.value);
    }
  }

  // ----------------------------------------------------- what a load may replace

  /** The load in flight under an id began in a state of the run, and remembers that state's draft and saved
      fingerprint. */
  ghost predicate BeganAt(steps: seq<Step>, n: nat, id: CallId, load: Pending)
    requires PossibleRun(START, steps) && load.Load?
  {
    && n < |steps| && steps[n] == BeginLoad(id, load.force)
    && PossibleRun(START, steps[..n])
    && var s := RunFrom(START, steps[..n]);
       load.draftAtStart == DraftNow(s) && load.savedAtStart == s.saved
  }

  lemma CallsOfStep(s: State, step: Step, id: CallId)
    requires Possible(s, step) && id in Next(s, step).calls && Next(s, step).calls[id].Load?
    ensures (id in s.calls && s.calls[id] == Next(s, step).calls[id])
         || (step.BeginLoad? && step.id == id && Next(s, step).calls[id] == Load(step.force, DraftNow(s), s.saved))
  {
  }

  lemma LastStep(steps: seq<Step>)
    requires PossibleRun(START, steps) && steps != []
    ensures var front, last := steps[..|steps| - 1], steps[|steps| - 1];
            PossibleRun(START, front) && Possible(RunFrom(START, front), last)
            && RunFrom(START, steps) == Next(RunFrom(START, front), last)
  {
    var front, last := steps[..|steps| - 1], steps[|steps| - 1];
    assert steps == front + [last];
    RunAppend(START, front, [last]);
    assert [last][1..] == [];
  }

  lemma {:induction false} LoadBegan(steps: seq<Step>, id: CallId) returns (n: nat)
    requires PossibleRun(START, steps)
    requires id in RunFrom(START, steps).calls && RunFrom(START, steps).calls[id].Load?
    ensures BeganAt(steps, n, id, RunFrom(START, steps).calls[id])
    decreases |steps|
  {
    var front, last := steps[..|steps| - 1], steps[|steps| - 1];
    LastStep(steps);
    var s := RunFrom(START, front);
    CallsOfStep(s, last, id);
    if id in s.calls && s.calls[id] == RunFrom(START, steps).calls[id] {
      n := LoadBegan(front, id);
      assert steps[..n] == front[..n];
    } else {
      n := |front|;
      assert steps[..n] == front;
    }
  }

  /** A load that replaces the form of a loaded configuration finds the draft's configuration and the saved fingerprint
      as they were when it began; unless forced, it replaces the configuration that counts as saved, so no unsaved edit
      is lost. */
  lemma LoadLosesNoEdit(steps: seq<Step>, id: CallId, config: Option<Form>) returns (n: nat)
    requires PossibleRun(START, steps)
    requires RunFrom(START, steps).loaded && Possible(RunFrom(START, steps), EndLoad(id, config))
    requires Next(RunFrom(START, steps), EndLoad(id, config)).form != RunFrom(START, steps).form
    ensures n < |steps| && PossibleRun(START, steps[..n])
    ensures var s, began := RunFrom(START, steps), RunFrom(START, steps[..n]);
            && steps[n] == BeginLoad(id, s.calls[id].force)
            && began.loaded && SameConfig(began.form, s.form) && began.saved == s.saved
            && Reference(steps).Some? && (!steps[n].force ==> SameConfig(s.form, Reference(steps).value))
  {
    FlagIsRight(steps);
    ReferenceStands(START, None, steps);
    n := LoadBegan(steps, id);
    FingerprintExact(RunFrom(START, steps[..n]).form, RunFrom(START, steps).form);
  }

  /** Whether a load's answer goes in: nothing is loaded yet, or configuration and saved fingerprint are as when it
      began and, unless forced, the configuration is the one that counts as saved. */
  predicate GoesIn(s: State, began: State, reference: Option<Form>, force: bool) {
    || !s.loaded
    || (began.loaded && SameConfig(began.form, s.form) && began.saved == s.saved
        && (force || (reference.Some? && SameConfig(s.form, reference.value))))
  }

  lemma GoesInIs(s: State, began: State, reference: Option<Form>, load: Pending)
    requires FlagTells(s, reference) && s.microtasks == 0 && load.Load?
    requires load.draftAtStart == DraftNow(began) && load.savedAtStart == began.saved
    ensures GoesIn(s, began, reference, load.force) <==> !Preserves(s, load)
  {
    FingerprintExact(began.form, s.form);
  }

  /** Every load's answer goes in exactly then, and becomes the form, saved and clean; otherwise nothing changes. */
  lemma LoadGoesInExactly(steps: seq<Step>, id: CallId, form: Form) returns (n: nat)
    requires PossibleRun(START, steps) && Possible(RunFrom(START, steps), EndLoad(id, Some(form)))
    ensures n < |steps| && PossibleRun(START, steps[..n])
    ensures var s, began := RunFrom(START, steps), RunFrom(START, steps[..n]);
            var next := Next(s, EndLoad(id, Some(form)));
            && steps[n] == BeginLoad(id, s.calls[id].force)
            && (if GoesIn(s, began, Reference(steps), steps[n].force)
                then next.form == form && next.loaded && !next.dirty
                else next == s.(calls := s.calls - {id}))
  {
    FlagIsRight(steps);
    n := LoadBegan(steps, id);
    GoesInIs(RunFrom(START, steps), RunFrom(START, steps[..n]), Reference(steps), RunFrom(START, steps).calls[id]);
  }

  /** A load replaces a form in which nothing happened since it began; unless forced, one without unsaved edits. */
  ghost predicate LoadReplaces(s: State, reference: Option<Form>, step: Step)
    requires Possible(s, step)
  {
    && step.EndLoad? && step.config == Some(Next(s, step).form)
    && s.calls[step.id].draftAtStart == DraftNow(s) && s.calls[step.id].savedAtStart == s.saved
    && (s.calls[step.id].force || (reference.Some? && SameConfig(s.form, reference.value)))
  }

  /** A start or stop moves the switch, and only if it stands as when the action began. */
  ghost predicate ActionSwitches(s: State, step: Step)
    requires Possible(s, step)
  {
    && step.EndAction? && step.running.Some? && s.form.enabled == s.calls[step.id].enabledAtStart
    && Next(s, step).form == s.form.(enabled := step.running.value)
  }

  /** A rule made from the log goes into the two texts and leaves their other lines. */
  ghost predicate RuleGoesIn(s: State, step: Step)
    requires Possible(s, step)
  {
    && step.EndRule? && step.answer.Some? && Next(s, step).form == WithTexts(s.form, Texts(Next(s, step).form))
    && Takes(s.form, Next(s, step).form, step.action, step.answer.value)
  }

  /** Filter metadata arrives, which is no configuration. */
  ghost predicate OnlyMetadata(s: State, step: Step)
    requires Possible(s, step)
  {
    && step.SyncMetadata? && Next(s, step).form == s.form.(display := step.display)
    && SameConfig(Next(s, step).form, s.form)
  }

  lemma EndLoadChange(s: State, reference: Option<Form>, step: Step)
    requires FlagTells(s, reference) && Possible(s, step) && s.loaded && step.EndLoad? && Next(s, step).form != s.form
    ensures LoadReplaces(s, reference, step)
  {
  }

  lemma EndActionChange(s: State, step: Step)
    requires Possible(s, step) && s.loaded && step.EndAction? && Next(s, step).form != s.form
    ensures ActionSwitches(s, step)
  {
  }

  lemma EndRuleChange(s: State, step: Step)
    requires Possible(s, step) && s.loaded && step.EndRule? && Next(s, step).form != s.form
    ensures RuleGoesIn(s, step)
  {
    MergeTakes(s.form, step.action, step.answer.value);
  }

  /** In every interleaving the form changes behind the user's back in no other way. */
  lemma OnlyLoadsAndActionsChange(steps: seq<Step>, step: Step)
    requires PossibleRun(START, steps) && Possible(RunFrom(START, steps), step) && RunFrom(START, steps).loaded
    requires !step.Edit? && !step.Change?
    requires Next(RunFrom(START, steps), step).form != RunFrom(START, steps).form
    ensures var s := RunFrom(START, steps);
            || LoadReplaces(s, Reference(steps), step)
            || ActionSwitches(s, step)
            || RuleGoesIn(s, step)
            || OnlyMetadata(s, step)
  {
    FlagIsRight(steps);
    var s := RunFrom(START, steps);
    if step.EndLoad? {
      EndLoadChange(s, Reference(steps), step);
    } else if step.EndAction? {
      EndActionChange(s, step);
    } else if step.EndRule? {
      EndRuleChange(s, step);
    }
  }

  // ------------------------------------------------------------------- a session

  method Dispatch(view: ConfigView, step: Step)
    requires Possible(view.Model(), step)
    modifies view
    ensures view.Model() == Next(old(view.Model()), step)
  {
    match step {
      case Edit(form) => view.HandleConfigFieldChange(form);
      case Drain => view.RunMicrotask();
      case Change(form) => view.ChangeForm(form);
      case SyncMetadata(display) => view.SyncFilterUpdateMetadata(display);
      case BeginLoad(id, force) => view.StartLoad(id, force);
      case EndLoad(id, config) => view.FinishLoad(id, config);
      case BeginSave(id) => view.StartSave(id);
      case EndSave(id, stored) => view.FinishSave(id, stored);
      case BeginUpdate(id) => view.StartUpdate(id);
      case EndUpdate(id, updated) => view.FinishUpdate(id, updated);
      case BeginAction(id) => view.StartAction(id);
      case EndAction(id, Some(enabled)) => view.ReconcileEnabledConfig(id, enabled);
      case EndAction(id, None) => view.Finish(id);
      case BeginRule(id) => view.StartRule(id);
      case EndRule(id, action, Some(answer)) => view.FinishRule(id, action, answer);
      case EndRule(id, _, None) => view.Finish(id);
    }
  }

  /** The handlers in any possible order: once a configuration is loaded and the microtasks are drained, the flag tells
      whether the draft differs from what is saved. */
  method Session(steps: seq<Step>) returns (view: ConfigView)
    requires PossibleRun(START, steps)
    ensures view.form == RunFrom(START, steps).form && view.savedConfigFingerprint == RunFrom(START, steps).saved
    ensures view.configLoaded && view.microtasks == 0 ==>
              Reference(steps).Some? && (view.configDirty <==> !SameConfig(view.form, Reference(steps).value))
  {
    view := new ConfigView();
    assert steps[..0] == [];
    for i := 0 to |steps|
      invariant fresh(view) && PossibleRun(START, steps[..i]) && view.Model() == RunFrom(START, steps[..i])
    {
      Prefix(steps, i + 1);
      LastStep(steps[..i + 1]);
      assert steps[..i + 1][..i] == steps[..i];
      Dispatch(view, steps[i]);
    }
    assert steps[..|steps|] == steps;
    FlagIsRight(steps);
  }

  lemma Prefix(steps: seq<Step>, n: nat)
    requires PossibleRun(START, steps) && n <= |steps|
    ensures PossibleRun(START, steps[..n])
  {
    assert steps == steps[..n] + steps[n..];
    RunAppend(START, steps[..n], steps[n..]);
  }
}
