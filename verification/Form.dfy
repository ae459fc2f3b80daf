/** The TUI's generic form: fields, selection, dirty mark, snapshot and inline text editor
    (tux-tui/src/model.rs), and its loading from the daemon (tux-tui/src/update.rs). */
module Form {
  import opened Prelude
  import opened Utf8Text
  import opened FormFields
  import opened FormSpec
  import Nav = FormNavigation

  lemma SavedIsText(v: Value)
    requires Sound(v) && Faithful(v)
    ensures Saved(v).Str? ==> IsUtf8(Saved(v).text)
  {
  }

  lemma TablesHoldText(fields: seq<Field>)
    requires UniqueKeys(fields)
    requires forall i :: 0 <= i < |fields| ==> Sound(fields[i].value) && Faithful(fields[i].value)
    ensures HoldsText(TableOf(fields))
  {
    TableHoldsFields(fields);
    forall key | key in TableOf(fields) && TableOf(fields)[key].Str?
      ensures IsUtf8(TableOf(fields)[key].text)
    {
      var i :| 0 <= i < |fields| && fields[i].key == key;
      SavedIsText(fields[i].value);
    }
  }

  class Form {
    var fields: seq<Field>
    var selected: nat
    var dirty: bool
    var original: seq<Value>
    var textEdit: Option<TextEdit>

    /** Sound values, a snapshot of sound values, a selection in range, a well-formed text editor, and,
        unless marked dirty, no difference between the values and the snapshot. */
    ghost predicate Valid()
      reads this
    {
      && |original| == |fields|
      && (forall i :: 0 <= i < |fields| ==> Sound(fields[i].value) && Sound(original[i]))
      && (fields == [] || selected < |fields|)
      && (!dirty ==> ValuesOf(fields) == original)
      && Editing(textEdit)
    }

    ghost function Now(): FormNow
      reads this
    {
      FormNow(fields, selected, dirty, original, textEdit)
    }

    constructor (fields: seq<Field>)
      requires forall i :: 0 <= i < |fields| ==> Sound(fields[i].value)
      ensures Valid() && this.fields == fields && selected == 0 && !dirty && textEdit == None
    {
      this.fields, selected, dirty, textEdit := fields, 0, false, None;
      original := ValuesOf(fields);
    }

    method SelectNext()
      requires Valid()
      modifies this`selected
      ensures Valid()
      ensures selected == if fields == [] then old(selected) else Nav.Next(Flags(fields), old(selected))
    {
      if |fields| == 0 { return; }
      ghost var i := selected;
      selected := Nav.FindNext(Flags(fields), selected);
      Nav.MovesLandOnEnabled(Flags(fields), i);
    }

    method SelectPrev()
      requires Valid()
      modifies this`selected
      ensures Valid()
      ensures selected == if fields == [] then old(selected) else Nav.Prev(Flags(fields), old(selected))
    {
      if |fields| == 0 { return; }
      ghost var i := selected;
      selected := Nav.FindPrev(Flags(fields), selected);
      Nav.MovesLandOnEnabled(Flags(fields), i);
    }

    /** Stores a changed value in the selected field. */
    method Change(v: Value)
      requires Valid() && selected < |fields| && Sound(v)
      modifies this`fields, this`dirty
      ensures Valid() && dirty && fields == WithValue(old(fields), selected, v)
    {
      fields := fields[selected := fields[selected].(value := v)];
      dirty := true;
    }

    method Adjust(delta: int)
      requires Valid()
      modifies this`fields, this`dirty
      ensures Valid()
      ensures var changed := if selected < |fields| && old(fields[selected].enabled)
                             then Adjusted(old(fields[selected].value), delta) else None;
              if changed.Some? then dirty && fields == WithValue(old(fields), selected, changed.value)
              else dirty == old(dirty) && fields == old(fields)
    {
      if selected >= |fields| || !fields[selected].enabled { return; }
      match fields[selected].value {
        case Number(value, min, max, step) =>
          Change(Number(Clamp(Saturate(value + Saturate(delta * step)), min, max), min, max, step));
        case FreqMhz(value, min, max, step) =>
          Change(FreqMhz(Clamp(Saturate(value + Saturate(delta * step)), min, max), min, max, step));
        case Bool(on) => Change(Bool(!on));
        case Select(options, index) =>
          if options != [] { Change(Select(options, (index + delta) % |options|)); }
        case Text(_) =>
      }
    }

    method Toggle()
      requires Valid()
      modifies this`fields, this`dirty
      ensures Valid()
      ensures var changed := if selected < |fields| && old(fields[selected].enabled)
                             then Toggled(old(fields[selected].value)) else None;
              if changed.Some? then dirty && fields == WithValue(old(fields), selected, changed.value)
              else dirty == old(dirty) && fields == old(fields)
    {
      if selected >= |fields| || !fields[selected].enabled { return; }
      match fields[selected].value {
        case Bool(on) => Change(Bool(!on));
        case Select(options, index) =>
          if options != [] { Change(Select(options, (index + 1) % |options|)); }
        case Text(_) =>
        case Number(_, _, _, _) =>
        case FreqMhz(_, _, _, _) =>
      }
    }

    /** Every value goes back to the snapshot; keys and enabled flags stay. */
    method Discard()
      requires Valid()
      modifies this`fields, this`dirty
      ensures Valid() && !dirty && ValuesOf(fields) == original && |fields| == |old(fields)|
      ensures forall i :: 0 <= i < |fields| ==> fields[i] == old(fields)[i].(value := original[i])
    {
      var i := 0;
      while i < |fields|
        invariant i <= |fields| == |old(fields)|
        invariant forall k :: 0 <= k < i ==> fields[k] == old(fields)[k].(value := original[k])
        invariant forall k :: i <= k < |fields| ==> fields[k] == old(fields)[k]
      {
        fields := fields[i := fields[i].(value := original[i])];
        i := i + 1;
      }
      dirty := false;
    }

    method MarkSaved()
      requires Valid()
      modifies this`original, this`dirty
      ensures Valid() && !dirty && original == ValuesOf(fields)
    {
      original := ValuesOf(fields);
      dirty := false;
    }

    method StartTextEdit()
      requires Valid()
      modifies this`textEdit
      ensures Valid()
      ensures textEdit == if selected < |fields| && fields[selected].enabled && fields[selected].value.Text?
                          then Some(TextEdit(fields[selected].value.text, |fields[selected].value.text|))
                          else old(textEdit)
    {
      if selected < |fields| && fields[selected].enabled && fields[selected].value.Text? {
        var buffer := fields[selected].value.text;
        textEdit := Some(TextEdit(buffer, |buffer|));
        var chars :| buffer == EncodeAll(chars);
        assert Represents(textEdit.value, Gap(chars, ""));
      }
    }

    /** One key of a running text edit. */
    method EditKey(key: Key)
      requires Valid()
      modifies this`textEdit
      ensures Valid()
      ensures textEdit == if old(textEdit).Some? then Some(Press(old(textEdit).value, key)) else None
    {
      if textEdit.Some? {
        ghost var g :| Represents(textEdit.value, g);
        PressRefines(textEdit.value, g, key);
        textEdit := Some(Press(textEdit.value, key));
      }
    }

    method CancelTextEdit()
      requires Valid()
      modifies this`textEdit
      ensures Valid() && textEdit == None
    {
      textEdit := None;
    }

    /** The buffer goes into the selected text field; only a real difference marks the form. */
    method ConfirmTextEdit()
      requires Valid()
      modifies this`fields, this`dirty, this`textEdit
      ensures Valid() && textEdit == None
      ensures if old(textEdit).Some? && Rewrites(old(fields), selected, old(textEdit).value.buffer)
              then dirty && fields == WithValue(old(fields), selected, Text(old(textEdit).value.buffer))
              else dirty == old(dirty) && fields == old(fields)
    {
      var edit := textEdit;
      textEdit := None;
      if edit.Some? && selected < |fields| && fields[selected].value.Text?
         && fields[selected].value.text != edit.value.buffer {
        ghost var g :| Represents(edit.value, g);
        EncodeAllConcat(g.left, g.right);
        Change(Text(edit.value.buffer));
      }
    }

    /** The keys handled while a text field is edited; tells whether the edit goes on. */
    method HandleTextKey(key: TextKey) returns (editing: bool)
      requires Valid()
      modifies this`fields, this`dirty, this`textEdit
      ensures Valid() && editing == textEdit.Some?
      ensures textEdit == match key
                case Confirm => None
                case Cancel => None
                case Edit(k) => if old(textEdit).Some? then Some(Press(old(textEdit).value, k)) else None
                case Ignored => old(textEdit)
      ensures if key == Confirm && old(textEdit).Some? && Rewrites(old(fields), selected, old(textEdit).value.buffer)
              then dirty && fields == WithValue(old(fields), selected, Text(old(textEdit).value.buffer))
              else dirty == old(dirty) && fields == old(fields)
    {
      match key {
        case Confirm => ConfirmTextEdit();
        case Cancel => CancelTextEdit();
        case Edit(k) => EditKey(k);
        case Ignored =>
      }
      editing := textEdit.Some?;
    }

    /** A key while no text field is edited. */
    method HandleFormKey(key: KeyCode) returns (save: Option<map<string, Toml>>)
      requires Valid() && textEdit == None
      modifies this`fields, this`selected, this`dirty, this`textEdit
      ensures Valid() && Now() == AfterKey(old(Now()), key)
      ensures save == SentBy(old(Now()), key)
    {
      save := None;
      match key {
        case Up => SelectPrev();
        case Down => SelectNext();
        case Left => Adjust(-1);
        case Right => Adjust(1);
        case Char(c) =>
          if c == ' ' {
            Toggle();
          } else if c == 's' && dirty {
            var table := SerializeForm(fields);
            save := Some(table);
          }
        case Enter => StartTextEdit();
        case Esc => Discard(); assert fields == Restored(old(fields), original);
        case Backspace =>
        case Delete =>
        case OtherKey =>
      }
    }

    /** `handle_form_tab_key`: while a text field is edited that edit takes every key. */
    method HandleKey(key: KeyCode) returns (save: Option<map<string, Toml>>, editing: bool)
      requires Valid()
      modifies this`fields, this`selected, this`dirty, this`textEdit
      ensures Valid() && Now() == AfterKey(old(Now()), key)
      ensures save == SentBy(old(Now()), key)
      ensures editing == textEdit.Some?
    {
      save := None;
      if textEdit.Some? {
        editing := HandleTextKey(AsTextKey(key));
      } else {
        save := HandleFormKey(key);
        editing := textEdit.Some?;
      }
    }

    /** A whole edit: its keys, with or without effect, and then Enter or Esc. */
    method EditText(keys: seq<Key>, confirm: bool)
      requires Valid() && textEdit.Some?
      modifies this`fields, this`dirty, this`textEdit
      ensures Valid() && textEdit == None
      ensures var buffer := PressAll(old(textEdit).value, keys).buffer;
              if confirm && Rewrites(old(fields), selected, buffer)
              then dirty && fields == WithValue(old(fields), selected, Text(buffer))
              else dirty == old(dirty) && fields == old(fields)
    {
      for i := 0 to |keys|
        invariant Valid() && textEdit == Some(PressAll(old(textEdit).value, keys[..i]))
        invariant fields == old(fields) && dirty == old(dirty)
      {
        assert keys[..i + 1][..i] == keys[..i];
        var _ := HandleTextKey(Edit(keys[i]));
      }
      assert keys[..|keys|] == keys;
      var _ := HandleTextKey(if confirm then Confirm else Cancel);
    }

    /** `load_form_from_toml` on a parsed table: every field whose key is present is loaded, and the
        result becomes the new snapshot. Texts in the table are text. */
    method LoadFromTable(table: map<string, Toml>)
      requires Valid()
      requires HoldsText(table)
      modifies this`fields, this`original, this`dirty
      ensures Valid() && !dirty && original == ValuesOf(fields) && |fields| == |old(fields)|
      ensures forall i :: 0 <= i < |fields| ==> Loadable(old(fields)[i].value) && fields[i] == LoadedField(old(fields)[i], table)
    {
      var i := 0;
      while i < |fields|
        invariant i <= |fields| == |old(fields)| == |original|
        invariant forall k :: 0 <= k < |fields| ==> Sound(old(fields)[k].value)
        invariant forall k :: 0 <= k < i ==> fields[k] == LoadedField(old(fields)[k], table) && Sound(fields[k].value)
        invariant forall k :: i <= k < |fields| ==> fields[k] == old(fields)[k]
      {
        if fields[i].key in table {
          LoadedStaysSound(fields[i].value, table[fields[i].key]);
          fields := fields[i := fields[i].(value := Loaded(fields[i].value, table[fields[i].key]))];
        }
        i := i + 1;
      }
      original := ValuesOf(fields);
      dirty := false;
    }

    /** The `DbusUpdate` arms for a form's data and for the confirmation of its save. */
    method HandleUpdate(update: Update)
      requires Valid() && (update.Data? ==> HoldsText(update.table))
      modifies this`fields, this`original, this`dirty
      ensures Valid() && Now() == AfterUpdate(old(Now()), update)
    {
      match update {
        case Data(table) =>
          if !dirty {
            LoadFromTable(table);
            assert fields == LoadedFields(old(fields), table);
          }
        case SavedByDaemon => MarkSaved();
      }
    }

    /** Saving a form and loading it here reproduces it: the same values, nothing marked, and a
        snapshot equal to the values. */
    method LoadSaved(saved: seq<Field>)
      requires Valid() && UniqueKeys(saved) && SameForm(saved, fields)
      requires forall i :: 0 <= i < |saved| ==> Sound(saved[i].value) && Faithful(saved[i].value)
      modifies this`fields, this`original, this`dirty
      ensures Valid() && !dirty && ValuesOf(fields) == ValuesOf(saved) == original
    {
      var table := SerializeForm(saved);
      TablesHoldText(saved);
      forall i | 0 <= i < |saved|
        ensures LoadedField(fields[i], TableOf(saved)).value == saved[i].value
      {
        FormRoundTrip(saved, fields, i);
      }
      LoadFromTable(table);
    }
  }
}
