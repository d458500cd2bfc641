/** The top-level component: its two state records, the handlers that replace
    them, and the dispatch that picks what is shown. */
module App {
  import opened Wrappers
  import opened JsArrays
  import opened TransactionEntryInterface
  import opened TransactionEntryService

  /** Both records the component keeps: the entry state and the settings. */
  datatype AppState = AppState(state: State, settings: Settings)

  // ---------------------------------------------------------------------------
  // Initial state
  // ---------------------------------------------------------------------------

  /** The entry state the component starts with: a new empty array, add-entry
      panel closed. */
  method InitialState() returns (s: State)
    ensures fresh(s.transactionEntries)
    ensures s.transactionEntries.elems == [] && !s.onAddEntry
  {
    var transactionEntries := new JsArray([]);
    s := State(transactionEntries, false);
  }

  /** The settings the component starts with: grouped by date, settings closed. */
  function InitialSettings(): (st: Settings)
    ensures DisplayOptionOf(st.displayOption) == Some(SectionListByDate)
    ensures !st.onSettings
  {
    Settings(false, SectionListByDate.Value())
  }

  // ---------------------------------------------------------------------------
  // Handlers
  // ---------------------------------------------------------------------------

  /** The Add Entry button: opens the add-entry panel. */
  function PressAddEntry(s: State): (r: State)
    ensures r.onAddEntry
    ensures r.transactionEntries == s.transactionEntries
  {
    s.(onAddEntry := true)
  }

  /** `cancelCreateEntry`: closes the add-entry panel. */
  function CancelCreateEntry(s: State): (r: State)
    ensures !r.onAddEntry
    ensures r.transactionEntries == s.transactionEntries
  {
    s.(onAddEntry := false)
  }

  /** The Settings button: opens the settings panel. */
  function PressSettings(st: Settings): (r: Settings)
    ensures r.onSettings
    ensures r.displayOption == st.displayOption
  {
    st.(onSettings := true)
  }

  /** `handleSetDisplayOption`: stores the chosen option and closes settings. */
  function HandleSetDisplayOption(st: Settings, displayOption: DisplayOptions): (r: Settings)
    ensures DisplayOptionOf(r.displayOption) == Some(displayOption)
    ensures !r.onSettings
  {
    st.(displayOption := displayOption.Value(), onSettings := false)
  }

  /** `handleCancelSetSetting`: closes settings, keeping the display option. */
  function HandleCancelSetSetting(st: Settings): (r: Settings)
    ensures !r.onSettings
    ensures r.displayOption == st.displayOption
  {
    st.(onSettings := false)
  }

  /** `getDisplayOption`: `stored` is what reading the stored preference did.
      A stored number (already parsed) becomes the display option; no stored
      value gives the date-grouped list; a failed read changes nothing. The
      settings panel flag is never touched. */
  function GetDisplayOption(st: Settings, stored: Outcome<Option<int>>): (r: Settings)
    ensures r.onSettings == st.onSettings
    ensures stored.Threw? ==> r == st
    ensures stored == Returned(None) ==> DisplayOptionOf(r.displayOption) == Some(SectionListByDate)
    ensures stored.Returned? && stored.value.Some? ==> r.displayOption == stored.value.value
  {
    match stored
    case Threw => st
    case Returned(None) => st.(displayOption := SectionListByDate.Value())
    case Returned(Some(n)) => st.(displayOption := n)
  }

  /** `createEntry`: hands over to the service (which updates the shared entry
      array in place); the settings are not touched. */
  method CreateEntry(app: AppState, saved: Outcome<TransactionEntry>) returns (next: AppState)
    modifies app.state.transactionEntries
    ensures next.settings == app.settings
    ensures saved.Threw? ==> next == app && unchanged(app.state.transactionEntries)
    ensures saved.Returned? ==>
              next.state == State(app.state.transactionEntries, false) &&
              app.state.transactionEntries.elems == old(app.state.transactionEntries.elems) + [saved.value]
  {
    var state := CreateTransactionEntry(saved, app.state);
    next := app.(state := state);
  }

  /** Pressing Add Entry and then cancelling restores the state, and so does
      the reverse order, starting with the panel open. */
  lemma AddEntryCancelRoundTrip(s: State)
    ensures !s.onAddEntry ==> CancelCreateEntry(PressAddEntry(s)) == s
    ensures s.onAddEntry ==> PressAddEntry(CancelCreateEntry(s)) == s
  {
  }

  /** Opening the settings and cancelling restores them; opening them and
      choosing an option leaves them closed with that option. */
  lemma SettingsRoundTrip(st: Settings, d: DisplayOptions)
    ensures !st.onSettings ==> HandleCancelSetSetting(PressSettings(st)) == st
    ensures HandleSetDisplayOption(PressSettings(st), d) == Settings(false, d.Value())
  {
  }

  // ---------------------------------------------------------------------------
  // What is shown
  // ---------------------------------------------------------------------------

  /** The entry view the dispatch picks. */
  datatype EntriesView =
    | SectionList(sections: seq<EntriesInDateSections>)
    | EntryFlatList(entries: seq<TransactionEntry>)
    | SpreadsheetGrid(entries: seq<TransactionEntry>)

  /** `displayEntries`: the flat list and the grid show the raw entries; every
      other option number, the date-grouped one and numbers outside the enum
      alike, shows the grouped sections of the current entries. */
  function DisplayEntries(app: AppState, labelOf: DateLabel): (v: EntriesView)
    reads app.state.transactionEntries
    ensures DisplayOptionOf(app.settings.displayOption) == Some(FlatList) <==> v.EntryFlatList?
    ensures DisplayOptionOf(app.settings.displayOption) == Some(Spreadsheet) <==> v.SpreadsheetGrid?
    ensures v.EntryFlatList? || v.SpreadsheetGrid? ==> v.entries == app.state.transactionEntries.elems
    ensures v.SectionList? ==> v.sections == DateSections(app.state.transactionEntries.elems, labelOf)
  {
    var es := app.state.transactionEntries.elems;
    if app.settings.displayOption == FlatList.Value() then EntryFlatList(es)
    else if app.settings.displayOption == Spreadsheet.Value() then SpreadsheetGrid(es)
    else SectionList(DateSections(es, labelOf))
  }

  /** What the component renders: the two menu buttons, the two panels and the
      entry view. */
  datatype Screen = Screen(
    addEntryButton: bool,
    settingsButton: bool,
    addEntryPanel: bool,
    settingsPanel: bool,
    entries: EntriesView)

  /** The rendered screen: each menu button is offered exactly when its panel
      is not shown, and each panel is shown exactly when its flag is set. */
  function Render(app: AppState, labelOf: DateLabel): (sc: Screen)
    reads app.state.transactionEntries
    ensures sc.addEntryPanel == app.state.onAddEntry && sc.addEntryButton == !sc.addEntryPanel
    ensures sc.settingsPanel == app.settings.onSettings && sc.settingsButton == !sc.settingsPanel
    ensures sc.entries == DisplayEntries(app, labelOf)
  {
    Screen(!app.state.onAddEntry, !app.settings.onSettings,
           app.state.onAddEntry, app.settings.onSettings,
           DisplayEntries(app, labelOf))
  }

  /** Choosing an option shows the matching view at once: the grouped view
      holds the current entries as date sections, the other two the entries
      themselves. */
  lemma SelectedOptionIsShown(app: AppState, d: DisplayOptions, labelOf: DateLabel)
    ensures var v := DisplayEntries(app.(settings := HandleSetDisplayOption(app.settings, d)), labelOf);
            var es := app.state.transactionEntries.elems;
            match d
            case SectionListByDate => v == SectionList(DateSections(es, labelOf))
            case FlatList => v == EntryFlatList(es)
            case Spreadsheet => v == SpreadsheetGrid(es)
  {
  }

  /** A stored preference outside the enum, or none at all, shows the
      date-grouped view. */
  lemma UnknownPreferenceShowsSections(app: AppState, stored: Option<int>, labelOf: DateLabel)
    requires stored.None? || DisplayOptionOf(stored.value).None?
    ensures DisplayEntries(app.(settings := GetDisplayOption(app.settings, Returned(stored))), labelOf)
            == SectionList(DateSections(app.state.transactionEntries.elems, labelOf))
  {
  }

  // ---------------------------------------------------------------------------
  // Sequences of handler calls
  // ---------------------------------------------------------------------------

  /** The pure handler calls, each taken as one atomic step. */
  datatype Event =
    | AddEntryPressed
    | CreateEntryCancelled
    | SettingsPressed
    | DisplayOptionSelected(option: DisplayOptions)
    | SettingCancelled
    | DisplayOptionLoaded(stored: Outcome<Option<int>>)

  /** The events that act on the settings record. */
  predicate IsSettingsEvent(ev: Event)
  {
    ev.SettingsPressed? || ev.DisplayOptionSelected? || ev.SettingCancelled? || ev.DisplayOptionLoaded?
  }

  /** One call of one of the six pure handlers: settings events replace only
      the settings, the others replace only the entry state, and none of the
      six puts a different entry array in the state. (Creating and deleting an
      entry change the array's contents in place; `CreateEntry` and
      `DeleteTransactionEntry` state that they keep the same array.) */
  function Step(app: AppState, ev: Event): (next: AppState)
    ensures IsSettingsEvent(ev) ==> next.state == app.state
    ensures !IsSettingsEvent(ev) ==> next.settings == app.settings
    ensures next.state.transactionEntries == app.state.transactionEntries
  {
    match ev
    case AddEntryPressed => app.(state := PressAddEntry(app.state))
    case CreateEntryCancelled => app.(state := CancelCreateEntry(app.state))
    case SettingsPressed => app.(settings := PressSettings(app.settings))
    case DisplayOptionSelected(d) => app.(settings := HandleSetDisplayOption(app.settings, d))
    case SettingCancelled => app.(settings := HandleCancelSetSetting(app.settings))
    case DisplayOptionLoaded(stored) => app.(settings := GetDisplayOption(app.settings, stored))
  }

  /** The handler calls in order. */
  function Run(app: AppState, evs: seq<Event>): AppState
    decreases evs
  {
    if evs == [] then app else Run(Step(app, evs[0]), evs[1..])
  }

  /** No sequence of pure handler calls puts a different entry array in the
      state. */
  lemma {:induction false} RunKeepsEntries(app: AppState, evs: seq<Event>)
    ensures Run(app, evs).state.transactionEntries == app.state.transactionEntries
    decreases evs
  {
    if evs != [] {
      RunKeepsEntries(Step(app, evs[0]), evs[1..]);
    }
  }

  /** Settings events never change the entry state. */
  lemma {:induction false} RunSettingsEventsKeepState(app: AppState, evs: seq<Event>)
    requires forall i :: 0 <= i < |evs| ==> IsSettingsEvent(evs[i])
    ensures Run(app, evs).state == app.state
    decreases evs
  {
    if evs != [] {
      RunSettingsEventsKeepState(Step(app, evs[0]), evs[1..]);
    }
  }

  /** Add-entry events never change the settings. */
  lemma {:induction false} RunEntryEventsKeepSettings(app: AppState, evs: seq<Event>)
    requires forall i :: 0 <= i < |evs| ==> !IsSettingsEvent(evs[i])
    ensures Run(app, evs).settings == app.settings
    decreases evs
  {
    if evs != [] {
      RunEntryEventsKeepSettings(Step(app, evs[0]), evs[1..]);
    }
  }

  /** When the last event is a selection, the selected option is stored and
      the settings are closed, whatever came before. */
  lemma {:induction false} RunLastSelectionWins(app: AppState, evs: seq<Event>, d: DisplayOptions)
    requires |evs| > 0 && evs[|evs| - 1] == DisplayOptionSelected(d)
    ensures DisplayOptionOf(Run(app, evs).settings.displayOption) == Some(d)
    ensures !Run(app, evs).settings.onSettings
    decreases evs
  {
    if |evs| > 1 {
      RunLastSelectionWins(Step(app, evs[0]), evs[1..], d);
    }
  }
}
