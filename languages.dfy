/** The `languages` table of the component and the label lookup that
    `translateText` performs on it. */
module Languages {
  import opened Wrappers

  /** One entry of the table: a recognition / synthesis language code and the
      name given to the text generation service (the
      source calls it `label`, a reserved word in Dafny). */
  datatype LanguageOption = LanguageOption(value: string, name: string)

  /** The ten languages offered in both pickers, in the order of the table. */
  const Table: seq<LanguageOption> := [
    LanguageOption("en", "English"),
    LanguageOption("es", "Spanish"),
    LanguageOption("fr", "French"),
    LanguageOption("de", "German"),
    LanguageOption("zh", "Chinese"),
    LanguageOption("ar", "Arabic"),
    LanguageOption("hi", "Hindi"),
    LanguageOption("ru", "Russian"),
    LanguageOption("pt", "Portuguese"),
    LanguageOption("ja", "Japanese")
  ]

  /** The fallbacks used when a code has no (truthy) label. */
  const DefaultSourceLabel: string := "English"
  const DefaultTargetLabel: string := "Spanish"

  /** `table.find(l => l.value === code)`: the first entry whose code matches. */
  function Find(table: seq<LanguageOption>, code: string): (r: Option<LanguageOption>)
    ensures r.Some? ==> r.value in table && r.value.value == code
    ensures r.None? <==> forall i :: 0 <= i < |table| ==> table[i].value != code
  {
    if table == [] then None
    else if table[0].value == code then Some(table[0])
    else Find(table[1..], code)
  }

  /** `table.find(...)?.label || fallback`: an empty label is falsy in
      JavaScript and also yields the fallback. The result is the fallback or
      the non-empty label of an entry with the code, and it is the fallback
      whenever no entry has the code. */
  function LabelOr(table: seq<LanguageOption>, code: string, fallback: string): (r: string)
    ensures r == fallback ||
            (r != "" && exists i :: 0 <= i < |table| && table[i].value == code && table[i].name == r)
    ensures (forall i :: 0 <= i < |table| ==> table[i].value != code) ==> r == fallback
  {
    match Find(table, code)
    case Some(entry) => if entry.name != "" then entry.name else fallback
    case None => fallback
  }

  /** The source-language name sent with a translation request: always one
      of the table's labels. */
  function SourceLabel(code: string): (r: string)
    ensures exists i :: 0 <= i < |Table| && Table[i].name == r
  {
    assert Table[0].name == DefaultSourceLabel;
    LabelOr(Table, code, DefaultSourceLabel)
  }

  /** The target-language name sent with a translation request: always one
      of the table's labels. */
  function TargetLabel(code: string): (r: string)
    ensures exists i :: 0 <= i < |Table| && Table[i].name == r
  {
    assert Table[1].name == DefaultTargetLabel;
    LabelOr(Table, code, DefaultTargetLabel)
  }

  /** `find` returns the entry at the first index whose code matches. */
  lemma {:induction false} FindFirstMatch(table: seq<LanguageOption>, code: string, i: nat)
    requires i < |table| && table[i].value == code
    requires forall j :: 0 <= j < i ==> table[j].value != code
    ensures Find(table, code) == Some(table[i])
  {
    if i > 0 {
      FindFirstMatch(table[1..], code, i - 1);
    }
  }

  /** The lookup yields the label of the first matching entry, or the
      fallback when that label is empty. */
  lemma LabelOrFirstMatch(table: seq<LanguageOption>, code: string, fallback: string, i: nat)
    requires i < |table| && table[i].value == code
    requires forall j :: 0 <= j < i ==> table[j].value != code
    ensures LabelOr(table, code, fallback) == if table[i].name != "" then table[i].name else fallback
  {
    FindFirstMatch(table, code, i);
  }

  /** No two entries of the table share a code, and no label is empty. */
  lemma TableWellFormed()
    ensures forall i, j :: 0 <= i < j < |Table| ==> Table[i].value != Table[j].value
    ensures forall i :: 0 <= i < |Table| ==> Table[i].name != ""
  {
  }

  /** Every code of the table resolves to its own label, for the source and
      for the target alike. */
  lemma KnownCodeLabel(i: nat)
    requires i < |Table|
    ensures SourceLabel(Table[i].value) == Table[i].name
    ensures TargetLabel(Table[i].value) == Table[i].name
  {
    TableWellFormed();
    LabelOrFirstMatch(Table, Table[i].value, DefaultSourceLabel, i);
    LabelOrFirstMatch(Table, Table[i].value, DefaultTargetLabel, i);
  }

  /** The languages a session starts with name English and Spanish. */
  lemma InitialLanguageLabels()
    ensures SourceLabel("en") == "English"
    ensures TargetLabel("es") == "Spanish"
  {
    KnownCodeLabel(0);
    KnownCodeLabel(1);
  }

  /** A code outside the table falls back to English for the source and to
      Spanish for the target. */
  lemma UnknownCodeLabel(code: string)
    requires forall i :: 0 <= i < |Table| ==> Table[i].value != code
    ensures SourceLabel(code) == "English"
    ensures TargetLabel(code) == "Spanish"
  {
  }
}
