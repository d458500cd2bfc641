/** The data shapes of the ledger: a transaction entry, the application state,
    a date section and the display settings. */
module TransactionEntryInterface {
  import opened Wrappers
  import opened JsArrays

  /** A transaction amount. It is a JavaScript number (floating point) that the
      core only carries around; no arithmetic is done on it. */
  type Amount = real

  /** One ledger entry. Every field is optional, `id` included: it is absent
      until the repository assigns it on save. `txnMonth` is zero-based. */
  datatype TransactionEntry = TransactionEntry(
    id: Option<int>,
    txnDay: Option<int>,
    txnMonth: Option<int>,
    txnYear: Option<int>,
    description: Option<string>,
    amount: Option<Amount>,
    expense: Option<bool>)

  /** The application state: the entry list (a JavaScript array that the
      service updates in place, hence a reference) and whether the add-entry
      panel is open. */
  datatype State = State(transactionEntries: JsArray<TransactionEntry>, onAddEntry: bool)

  /** One section of the date-grouped list: the entries on one date and the
      date's label as title. */
  datatype EntriesInDateSections = EntriesInDateSections(data: seq<TransactionEntry>, title: string)

  /** The three ways of showing the entries. */
  datatype DisplayOptions = SectionListByDate | FlatList | Spreadsheet {
    /** The number the TypeScript enum gives each option. */
    function Value(): (n: int)
      ensures 1 <= n <= 3
    {
      match this
      case SectionListByDate => 1
      case FlatList => 2
      case Spreadsheet => 3
    }
  }

  /** The enum member with number `n`, if there is one. */
  function DisplayOptionOf(n: int): (d: Option<DisplayOptions>)
    ensures d.Some? <==> 1 <= n <= 3
    ensures d.Some? ==> d.value.Value() == n
  {
    if n == 1 then Some(SectionListByDate)
    else if n == 2 then Some(FlatList)
    else if n == 3 then Some(Spreadsheet)
    else None
  }

  /** The enum numbering is a bijection between the three options and 1, 2, 3:
      distinct options have distinct numbers and each number names its option. */
  lemma DisplayOptionValues(d: DisplayOptions, e: DisplayOptions)
    ensures d.Value() == e.Value() <==> d == e
    ensures DisplayOptionOf(d.Value()) == Some(d)
  {
  }

  /** The settings: whether the settings panel is open, and the display option.
      The option is kept as a plain number because the stored preference is
      read back with `parseInt`, which may yield a number outside the enum. */
  datatype Settings = Settings(onSettings: bool, displayOption: int)
}
