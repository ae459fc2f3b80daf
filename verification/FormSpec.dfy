/** What a form of the TUI holds, and what its keys and the daemon's messages make of it
    (tux-tui/src/model.rs, tux-tui/src/update.rs). `Form` refines these functions. */
module FormSpec {
  import opened Prelude
  import Utf8Text
  import opened FormFields
  import Nav = FormNavigation

  type TextEdit = Utf8Text.TextEdit

  function Flags(fields: seq<Field>): (r: seq<bool>)
    ensures |r| == |fields| && forall i :: 0 <= i < |r| ==> r[i] == fields[i].enabled
  {
    seq(|fields|, i requires 0 <= i < |fields| => fields[i].enabled)
  }

  function ValuesOf(fields: seq<Field>): (r: seq<Value>)
    ensures |r| == |fields| && forall i :: 0 <= i < |r| ==> r[i] == fields[i].value
  {
    seq(|fields|, i requires 0 <= i < |fields| => fields[i].value)
  }

  function WithValue(fields: seq<Field>, i: nat, v: Value): seq<Field>
    requires i < |fields|
  {
    fields[i := fields[i].(value := v)]
  }

  /** The text editor holds some text with the cursor somewhere in it. */
  ghost predicate Editing(edit: Option<TextEdit>) {
    edit.Some? ==> exists g :: Utf8Text.Represents(edit.value, g)
  }

  /** Confirming `buffer` would change the selected field: it is a text field with another text. */
  predicate Rewrites(fields: seq<Field>, selected: nat, buffer: seq<u8>) {
    selected < |fields| && fields[selected].value.Text? && fields[selected].value.text != buffer
  }

  /** A key while a text field is edited. */
  datatype TextKey = Confirm | Cancel | Edit(key: Utf8Text.Key) | Ignored

  /** A form as a value. */
  datatype FormNow = FormNow(fields: seq<Field>, selected: nat, dirty: bool, original: seq<Value>, edit: Option<TextEdit>)

  datatype KeyCode = Up | Down | Left | Right | Enter | Esc | Backspace | Delete | Char(c: char) | OtherKey

  /** `handle_text_edit_key`. */
  function AsTextKey(key: KeyCode): TextKey {
    match key
    case Enter => Confirm
    case Esc => Cancel
    case Backspace => Edit(Utf8Text.Backspace)
    case Delete => Edit(Utf8Text.Delete)
    case Left => Edit(Utf8Text.Left)
    case Right => Edit(Utf8Text.Right)
    case Char(c) => Edit(Utf8Text.Input(c))
    case Up => Ignored
    case Down => Ignored
    case OtherKey => Ignored
  }

  /** Sound values and snapshot, a selection in range, a well-formed text editor. */
  ghost predicate WellFormed(s: FormNow) {
    && |s.original| == |s.fields|
    && (forall i :: 0 <= i < |s.fields| ==> Sound(s.fields[i].value) && Sound(s.original[i]))
    && (s.fields == [] || s.selected < |s.fields|)
    && Editing(s.edit)
  }

  function Changed(s: FormNow, v: Option<Value>): FormNow {
    if v.Some? && s.selected < |s.fields| then s.(fields := WithValue(s.fields, s.selected, v.value), dirty := true) else s
  }

  /** The selected value, if its field can be operated. */
  function Operated(s: FormNow): Option<Value> {
    if s.selected < |s.fields| && s.fields[s.selected].enabled then Some(s.fields[s.selected].value) else None
  }

  ghost function AdjustedForm(s: FormNow, delta: int): FormNow
    requires WellFormed(s)
  {
    if Operated(s) == None then s else Changed(s, Adjusted(Operated(s).value, delta))
  }

  function ToggledForm(s: FormNow): FormNow {
    if Operated(s) == None then s else Changed(s, Toggled(Operated(s).value))
  }

  function Restored(fields: seq<Field>, values: seq<Value>): (r: seq<Field>)
    requires |fields| == |values|
    ensures |r| == |fields| && forall i :: 0 <= i < |r| ==> r[i] == fields[i].(value := values[i])
  {
    seq(|fields|, i requires 0 <= i < |fields| => fields[i].(value := values[i]))
  }

  /** A key while a text field is edited. */
  ghost function AfterTextKey(s: FormNow, key: TextKey): FormNow
    requires WellFormed(s) && s.edit.Some?
  {
    match key
    case Confirm =>
      if Rewrites(s.fields, s.selected, s.edit.value.buffer)
      then s.(fields := WithValue(s.fields, s.selected, Text(s.edit.value.buffer)), dirty := true, edit := None)
      else s.(edit := None)
    case Cancel => s.(edit := None)
    case Edit(k) => s.(edit := Some(Utf8Text.Press(s.edit.value, k)))
    case Ignored => s
  }

  ghost function AfterKey(s: FormNow, key: KeyCode): FormNow
    requires WellFormed(s)
  {
    if s.edit.Some? then AfterTextKey(s, AsTextKey(key))
    else match key
      case Up => if s.fields == [] then s else s.(selected := Nav.Prev(Flags(s.fields), s.selected))
      case Down => if s.fields == [] then s else s.(selected := Nav.Next(Flags(s.fields), s.selected))
      case Left => AdjustedForm(s, -1)
      case Right => AdjustedForm(s, 1)
      case Char(c) => if c == ' ' then ToggledForm(s) else s
      case Enter =>
        if Operated(s).Some? && Operated(s).value.Text?
        then s.(edit := Some(Utf8Text.TextEdit(Operated(s).value.text, |Operated(s).value.text|))) else s
      case Esc => s.(fields := Restored(s.fields, s.original), dirty := false)
      case _ => s
  }

  /** The table a key sends to the daemon. */
  function SentBy(s: FormNow, key: KeyCode): Option<map<string, Toml>> {
    if s.edit == None && key == Char('s') && s.dirty then Some(TableOf(s.fields)) else None
  }

  /** The daemon's values for the form, or its confirmation of a save. */
  datatype Update = Data(table: map<string, Toml>) | SavedByDaemon

  ghost predicate HoldsText(table: map<string, Toml>) {
    forall key :: key in table && table[key].Str? ==> IsUtf8(table[key].text)
  }

  ghost function LoadedFields(fields: seq<Field>, table: map<string, Toml>): (r: seq<Field>)
    requires forall i :: 0 <= i < |fields| ==> Loadable(fields[i].value)
    ensures |r| == |fields| && forall i :: 0 <= i < |r| ==> r[i] == LoadedField(fields[i], table)
  {
    seq(|fields|, i requires 0 <= i < |fields| => LoadedField(fields[i], table))
  }

  /** The daemon's values are skipped while there are unsaved changes; a confirmation makes the snapshot
      whatever the form holds. */
  ghost function AfterUpdate(s: FormNow, update: Update): FormNow
    requires WellFormed(s)
  {
    match update
    case Data(table) =>
      if s.dirty then s
      else s.(fields := LoadedFields(s.fields, table), original := ValuesOf(LoadedFields(s.fields, table)))
    case SavedByDaemon => s.(original := ValuesOf(s.fields), dirty := false)
  }
}
