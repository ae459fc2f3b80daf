/** Sessions of a form: keys, the daemon's data and its confirmations (tux-tui/src/update.rs). */
module FormSessions {
  import opened Prelude
  import Utf8Text
  import opened FormFields
  import opened FormSpec
  import Nav = FormNavigation

  datatype Event = Pressed(key: KeyCode) | Updated(update: Update)

  /** Tables hold text, as every TOML document does. */
  ghost predicate TextOnly(event: Event) {
    event.Updated? && event.update.Data? ==> HoldsText(event.update.table)
  }

  ghost function Next(s: FormNow, event: Event): FormNow
    requires WellFormed(s)
  {
    match event
    case Pressed(key) => AfterKey(s, key)
    case Updated(update) => AfterUpdate(s, update)
  }

  // ---- Every event keeps a form well-formed ------------------------------------------

  lemma ChangedStaysWellFormed(s: FormNow, v: Option<Value>)
    requires WellFormed(s) && (v.Some? ==> Sound(v.value))
    ensures WellFormed(Changed(s, v))
  {
  }

  lemma OperatedStaysSound(v: Value, delta: int)
    requires Sound(v)
    ensures Adjusted(v, delta).Some? ==> Sound(Adjusted(v, delta).value)
    ensures Toggled(v).Some? ==> Sound(Toggled(v).value)
  {
  }

  lemma TextKeyStaysWellFormed(s: FormNow, key: TextKey)
    requires WellFormed(s) && s.edit.Some?
    ensures WellFormed(AfterTextKey(s, key))
  {
    var g :| Utf8Text.Represents(s.edit.value, g);
    match key
    case Confirm =>
      Utf8Text.EncodeAllConcat(g.left, g.right);
    case Edit(k) => Utf8Text.PressRefines(s.edit.value, g, k);
    case _ =>
  }

  lemma StartStaysWellFormed(s: FormNow)
    requires WellFormed(s) && Operated(s).Some? && Operated(s).value.Text?
    ensures Editing(Some(Utf8Text.TextEdit(Operated(s).value.text, |Operated(s).value.text|)))
  {
    var buffer := Operated(s).value.text;
    var chars :| buffer == Utf8Text.EncodeAll(chars);
    assert Utf8Text.Represents(Utf8Text.TextEdit(buffer, |buffer|), Utf8Text.Gap(chars, ""));
  }

  lemma OperatingStaysWellFormed(s: FormNow, delta: int)
    requires WellFormed(s)
    ensures WellFormed(AdjustedForm(s, delta)) && WellFormed(ToggledForm(s))
  {
    if Operated(s).Some? {
      OperatedStaysSound(Operated(s).value, delta);
      ChangedStaysWellFormed(s, Adjusted(Operated(s).value, delta));
      ChangedStaysWellFormed(s, Toggled(Operated(s).value));
    }
  }

  lemma FormKeyStaysWellFormed(s: FormNow, key: KeyCode)
    requires WellFormed(s) && s.edit == None
    ensures WellFormed(AfterKey(s, key))
  {
    match key
    case Left => OperatingStaysWellFormed(s, -1);
    case Right => OperatingStaysWellFormed(s, 1);
    case Char(c) => OperatingStaysWellFormed(s, 0);
    case Enter => if Operated(s).Some? && Operated(s).value.Text? { StartStaysWellFormed(s); }
    case Up => if s.fields != [] { Nav.MovesLandOnEnabled(Flags(s.fields), s.selected); }
    case Down => if s.fields != [] { Nav.MovesLandOnEnabled(Flags(s.fields), s.selected); }
    case _ =>
  }

  lemma DataStaysWellFormed(s: FormNow, table: map<string, Toml>)
    requires WellFormed(s) && HoldsText(table)
    ensures WellFormed(AfterUpdate(s, Data(table)))
  {
    if !s.dirty {
      forall i | 0 <= i < |s.fields| ensures Sound(LoadedField(s.fields[i], table).value) {
        if s.fields[i].key in table {
          LoadedStaysSound(s.fields[i].value, table[s.fields[i].key]);
        }
      }
    }
  }

  lemma NextStaysWellFormed(s: FormNow, event: Event)
    requires WellFormed(s) && TextOnly(event)
    ensures WellFormed(Next(s, event))
  {
    match event
    case Pressed(key) =>
      if s.edit.Some? {
        TextKeyStaysWellFormed(s, AsTextKey(key));
      } else {
        FormKeyStaysWellFormed(s, key);
      }
    case Updated(update) =>
      if update.Data? {
        DataStaysWellFormed(s, update.table);
      }
  }

  ghost predicate AllTextOnly(events: seq<Event>) {
    forall i :: 0 <= i < |events| ==> TextOnly(events[i])
  }

  ghost function AfterEvents(s: FormNow, events: seq<Event>): (r: FormNow)
    requires WellFormed(s) && AllTextOnly(events)
    ensures WellFormed(r)
  {
    if events == [] then s
    else
      var before := AfterEvents(s, events[..|events| - 1]);
      NextStaysWellFormed(before, events[|events| - 1]);
      Next(before, events[|events| - 1])
  }

  // ---- What the keys do, in characters ------------------------------------------------

  /** A text field is being edited: these are the characters before and after the cursor. */
  ghost predicate Shows(s: FormNow, left: string, right: string) {
    && s.edit.Some?
    && s.edit.value.buffer == Utf8Text.EncodeAll(left) + Utf8Text.EncodeAll(right)
    && s.edit.value.cursor == |Utf8Text.EncodeAll(left)|
  }

  /** Everything but the running edit is as it was. */
  ghost predicate OnlyEditDiffers(s: FormNow, s': FormNow) {
    s'.fields == s.fields && s'.selected == s.selected && s'.dirty == s.dirty && s'.original == s.original
  }

  lemma PressShows(s: FormNow, left: string, right: string, key: Utf8Text.Key)
    requires WellFormed(s) && Shows(s, left, right)
    ensures var g, s' := Utf8Text.PressGap(Utf8Text.Gap(left, right), key), AfterTextKey(s, Edit(key));
            Shows(s', g.left, g.right) && OnlyEditDiffers(s, s')
  {
    Utf8Text.PressRefines(s.edit.value, Utf8Text.Gap(left, right), key);
  }

  /** While a text is edited, Backspace removes the character before the cursor ... */
  lemma BackspaceMeans(s: FormNow, left: string, right: string)
    requires WellFormed(s) && Shows(s, left, right)
    ensures OnlyEditDiffers(s, AfterKey(s, Backspace))
    ensures Shows(AfterKey(s, Backspace), if left == "" then "" else left[..|left| - 1], right)
  {
    PressShows(s, left, right, Utf8Text.Backspace);
  }

  /** ... Delete the one after it ... */
  lemma DeleteMeans(s: FormNow, left: string, right: string)
    requires WellFormed(s) && Shows(s, left, right)
    ensures OnlyEditDiffers(s, AfterKey(s, Delete))
    ensures Shows(AfterKey(s, Delete), left, if right == "" then "" else right[1..])
  {
    PressShows(s, left, right, Utf8Text.Delete);
  }

  /** ... Left moves the cursor back over one character ... */
  lemma LeftMeans(s: FormNow, left: string, right: string)
    requires WellFormed(s) && Shows(s, left, right)
    ensures OnlyEditDiffers(s, AfterKey(s, Left))
    ensures left == "" ==> Shows(AfterKey(s, Left), left, right)
    ensures left != "" ==> Shows(AfterKey(s, Left), left[..|left| - 1], [left[|left| - 1]] + right)
  {
    PressShows(s, left, right, Utf8Text.Left);
  }

  /** ... Right forward over one ... */
  lemma RightMeans(s: FormNow, left: string, right: string)
    requires WellFormed(s) && Shows(s, left, right)
    ensures OnlyEditDiffers(s, AfterKey(s, Right))
    ensures right == "" ==> Shows(AfterKey(s, Right), left, right)
    ensures right != "" ==> Shows(AfterKey(s, Right), left + [right[0]], right[1..])
  {
    PressShows(s, left, right, Utf8Text.Right);
  }

  /** ... and a character goes in before the cursor, the space bar and the save key included. */
  lemma CharMeans(s: FormNow, left: string, right: string, c: char)
    requires WellFormed(s) && Shows(s, left, right)
    ensures OnlyEditDiffers(s, AfterKey(s, Char(c))) && Shows(AfterKey(s, Char(c)), left + [c], right)
    ensures SentBy(s, Char(c)) == None
    ensures AfterKey(s, Up) == AfterKey(s, Down) == AfterKey(s, OtherKey) == s
  {
    PressShows(s, left, right, Utf8Text.Input(c));
  }

  /** Esc drops the edit. Enter puts the buffer into the selected text field and marks the form if that held
      another text; no other field changes ... */
  lemma EndingKeysMean(s: FormNow)
    requires WellFormed(s) && s.edit.Some?
    ensures AfterKey(s, Esc).edit == None && OnlyEditDiffers(s, AfterKey(s, Esc))
    ensures var i, s' := s.selected, AfterKey(s, Enter);
            && s'.edit == None && s'.selected == i && s'.original == s.original && |s'.fields| == |s.fields|
            && (forall k :: 0 <= k < |s.fields| && k != i ==> s'.fields[k] == s.fields[k])
            && (if i < |s.fields| && s.fields[i].value.Text?
                then s'.fields[i] == s.fields[i].(value := Text(s.edit.value.buffer))
                     && (s'.dirty <==> s.dirty || s.fields[i].value.text != s.edit.value.buffer)
                else OnlyEditDiffers(s, s'))
  {
  }

  /** ... and the buffer is the encoding of the characters around the cursor. */
  lemma BufferHoldsCharacters(s: FormNow, left: string, right: string)
    requires Shows(s, left, right)
    ensures s.edit.value.buffer == Utf8Text.EncodeAll(left + right)
  {
    Utf8Text.EncodeAllConcat(left, right);
  }

  /** What an editing key makes of the characters around a cursor, and what a sequence of them does. */
  function TypedKey(left: string, right: string, key: KeyCode): (string, string) {
    match key
    case Backspace => (if left == "" then left else left[..|left| - 1], right)
    case Delete => (left, if right == "" then right else right[1..])
    case Left => if left == "" then (left, right) else (left[..|left| - 1], [left[|left| - 1]] + right)
    case Right => if right == "" then (left, right) else (left + [right[0]], right[1..])
    case Char(c) => (left + [c], right)
    case _ => (left, right)
  }

  function Typed(left: string, right: string, keys: seq<KeyCode>): (string, string) {
    if keys == [] then (left, right)
    else
      var before := Typed(left, right, keys[..|keys| - 1]);
      TypedKey(before.0, before.1, keys[|keys| - 1])
  }

  lemma KeyMeans(s: FormNow, left: string, right: string, key: KeyCode)
    requires WellFormed(s) && Shows(s, left, right) && key != Enter && key != Esc
    ensures OnlyEditDiffers(s, AfterKey(s, key))
    ensures Shows(AfterKey(s, key), TypedKey(left, right, key).0, TypedKey(left, right, key).1)
  {
    match key
    case Backspace => BackspaceMeans(s, left, right);
    case Delete => DeleteMeans(s, left, right);
    case Left => LeftMeans(s, left, right);
    case Right => RightMeans(s, left, right);
    case Char(c) => CharMeans(s, left, right, c);
    case _ => CharMeans(s, left, right, ' ');
  }

  ghost function AfterKeys(s: FormNow, keys: seq<KeyCode>): (r: FormNow)
    requires WellFormed(s)
    ensures WellFormed(r)
  {
    if keys == [] then s
    else
      var before := AfterKeys(s, keys[..|keys| - 1]);
      NextStaysWellFormed(before, Pressed(keys[|keys| - 1]));
      AfterKey(before, keys[|keys| - 1])
  }

  /** Any keys but Enter and Esc do to a running edit what they do to its characters, and nothing else. */
  lemma {:induction false} EditingSessionsMean(s: FormNow, left: string, right: string, keys: seq<KeyCode>)
    requires WellFormed(s) && Shows(s, left, right) && Enter !in keys && Esc !in keys
    ensures Shows(AfterKeys(s, keys), Typed(left, right, keys).0, Typed(left, right, keys).1)
    ensures OnlyEditDiffers(s, AfterKeys(s, keys))
  {
    if keys != [] {
      var before, last := keys[..|keys| - 1], keys[|keys| - 1];
      EditingSessionsMean(s, left, right, before);
      KeyMeans(AfterKeys(s, before), Typed(left, right, before).0, Typed(left, right, before).1, last);
    }
  }

  /** Outside an edit Left and Right adjust an enabled field downwards and upwards, the space bar toggles it, and
      Enter starts an edit of a text at its end; on a field that is disabled they do nothing. */
  lemma FieldKeysMean(s: FormNow)
    requires WellFormed(s) && s.edit == None && s.selected < |s.fields|
    ensures !s.fields[s.selected].enabled ==> AfterKey(s, Left) == AfterKey(s, Right) == AfterKey(s, Char(' ')) == AfterKey(s, Enter) == s
    ensures s.fields[s.selected].enabled ==>
              var v := s.fields[s.selected].value;
              && AfterKey(s, Left) == Changed(s, Adjusted(v, -1))
              && AfterKey(s, Right) == Changed(s, Adjusted(v, 1))
              && AfterKey(s, Char(' ')) == Changed(s, Toggled(v))
              && AfterKey(s, Enter) == if v.Text? then s.(edit := Some(Utf8Text.TextEdit(v.text, |v.text|))) else s
  {
  }

  /** A changed value replaces the selected one and marks the form; no value changes nothing. */
  lemma ChangedMeans(s: FormNow, v: Option<Value>)
    requires s.selected < |s.fields|
    ensures v == None ==> Changed(s, v) == s
    ensures v.Some? ==>
              var s' := Changed(s, v);
              && s'.fields == s.fields[s.selected := s.fields[s.selected].(value := v.value)]
              && s'.dirty && s'.selected == s.selected && s'.original == s.original && s'.edit == s.edit
  {
  }

  /** Up and Down select, Esc brings back the snapshot, and no other key does anything to the form. */
  lemma FormKeysMean(s: FormNow, c: char)
    requires WellFormed(s) && s.edit == None
    ensures s.fields != [] ==>
              && AfterKey(s, Up) == s.(selected := Nav.Prev(Flags(s.fields), s.selected))
              && AfterKey(s, Down) == s.(selected := Nav.Next(Flags(s.fields), s.selected))
    ensures var s' := AfterKey(s, Esc);
            && ValuesOf(s'.fields) == s.original && !s'.dirty && s' == s.(fields := s'.fields, dirty := false)
            && forall i :: 0 <= i < |s.fields| ==> s'.fields[i].key == s.fields[i].key && s'.fields[i].enabled == s.fields[i].enabled
    ensures AfterKey(s, Backspace) == AfterKey(s, Delete) == AfterKey(s, OtherKey) == s && (c != ' ' ==> AfterKey(s, Char(c)) == s)
  {
  }

  // ---- Saves and their confirmations ---------------------------------------------------

  /** An arrow key finds nothing to do: a text, a lone option, or a number at the bound it is sent to. */
  predicate AdjustKeeps(v: Value, delta: int) {
    match v
    case Text(_) => true
    case Bool(_) => false
    case Select(options, _) => |options| <= 1
    case _ => delta * v.step == 0 || v.value == if delta * v.step > 0 then v.max else v.min
  }

  /** The space bar finds nothing to do. */
  predicate ToggleKeeps(v: Value) {
    match v
    case Bool(_) => false
    case Select(options, _) => |options| <= 1
    case _ => true
  }

  /** What keeps an event from changing a value: a key finds nothing to do, the form is discarded to what it
      holds, the edited text is what was there, the daemon's data is skipped or the same. Moves, saves and
      confirmations never do. */
  ghost predicate KeepsValues(s: FormNow, event: Event)
    requires WellFormed(s)
  {
    match event
    case Pressed(key) =>
      if s.edit.Some? then key != Enter || !Rewrites(s.fields, s.selected, s.edit.value.buffer)
      else (
        match key
        case Left => Operated(s).Some? ==> AdjustKeeps(Operated(s).value, -1)
        case Right => Operated(s).Some? ==> AdjustKeeps(Operated(s).value, 1)
        case Char(c) => c == ' ' && Operated(s).Some? ==> ToggleKeeps(Operated(s).value)
        case Esc => ValuesOf(s.fields) == s.original
        case _ => true)
    case Updated(Data(table)) => s.dirty || forall i :: 0 <= i < |s.fields| ==> LoadedField(s.fields[i], table) == s.fields[i]
    case Updated(SavedByDaemon) => true
  }

  lemma AdjustKeepsExactly(v: Value, delta: int)
    requires Sound(v) && (delta == 1 || delta == -1)
    ensures (Adjusted(v, delta) == None || Adjusted(v, delta) == Some(v)) <==> AdjustKeeps(v, delta)
  {
    match v
    case Select(options, selected) =>
      var n := |options|;
      if n > 1 && delta == 1 {
        ModBelowTwice(selected + 1, n);
      } else if n > 1 && selected > 0 {
        ModBelowTwice(selected - 1, n);
      } else if n > 1 {
        ModOfMinusOne(n);
      }
    case _ =>
  }

  lemma ToggleKeepsExactly(v: Value)
    requires Sound(v)
    ensures (Toggled(v) == None || Toggled(v) == Some(v)) <==> ToggleKeeps(v)
  {
    if v.Select? && |v.options| > 1 {
      ModBelowTwice(v.selected + 1, |v.options|);
    }
  }

  /** A change of the selected value shows among the values exactly if it is one. */
  lemma ChangeShowsExactly(s: FormNow, v: Value)
    requires WellFormed(s) && Operated(s).Some?
    ensures ValuesOf(Changed(s, Some(v)).fields) == ValuesOf(s.fields) <==> v == Operated(s).value
  {
    assert ValuesOf(Changed(s, Some(v)).fields)[s.selected] == v;
    assert ValuesOf(s.fields)[s.selected] == Operated(s).value;
  }

  lemma FormKeyKeepsExactly(s: FormNow, key: KeyCode)
    requires WellFormed(s) && s.edit == None
    ensures ValuesOf(AfterKey(s, key).fields) == ValuesOf(s.fields) <==> KeepsValues(s, Pressed(key))
  {
    if key == Esc {
      assert ValuesOf(Restored(s.fields, s.original)) == s.original;
    } else if Operated(s).Some? && (key == Left || key == Right) {
      var delta := if key == Left then -1 else 1;
      AdjustKeepsExactly(Operated(s).value, delta);
      if Adjusted(Operated(s).value, delta).Some? {
        ChangeShowsExactly(s, Adjusted(Operated(s).value, delta).value);
      }
    } else if Operated(s).Some? && key == Char(' ') {
      ToggleKeepsExactly(Operated(s).value);
      if Toggled(Operated(s).value).Some? {
        ChangeShowsExactly(s, Toggled(Operated(s).value).value);
      }
    }
  }

  lemma TextKeyKeepsExactly(s: FormNow, key: KeyCode)
    requires WellFormed(s) && s.edit.Some?
    ensures ValuesOf(AfterKey(s, key).fields) == ValuesOf(s.fields) <==> KeepsValues(s, Pressed(key))
  {
    if key == Enter && Rewrites(s.fields, s.selected, s.edit.value.buffer) {
      assert ValuesOf(AfterKey(s, key).fields)[s.selected] != ValuesOf(s.fields)[s.selected];
    }
  }

  lemma DataKeepsExactly(s: FormNow, table: map<string, Toml>)
    requires WellFormed(s)
    ensures ValuesOf(AfterUpdate(s, Data(table)).fields) == ValuesOf(s.fields) <==> KeepsValues(s, Updated(Data(table)))
  {
    if !s.dirty {
      var loaded := LoadedFields(s.fields, table);
      forall i | 0 <= i < |s.fields|
        ensures ValuesOf(loaded)[i] == ValuesOf(s.fields)[i] <==> LoadedField(s.fields[i], table) == s.fields[i]
      {
      }
    }
  }

  lemma KeepsValuesExactly(s: FormNow, event: Event)
    requires WellFormed(s)
    ensures ValuesOf(Next(s, event).fields) == ValuesOf(s.fields) <==> KeepsValues(s, event)
  {
    match event
    case Pressed(key) =>
      if s.edit.Some? {
        TextKeyKeepsExactly(s, key);
      } else {
        FormKeyKeepsExactly(s, key);
      }
    case Updated(Data(table)) => DataKeepsExactly(s, table);
    case Updated(SavedByDaemon) =>
  }

  ghost predicate KeepsAt(s: FormNow, events: seq<Event>, i: nat)
    requires WellFormed(s) && AllTextOnly(events) && i < |events|
  {
    KeepsValues(AfterEvents(s, events[..i]), events[i])
  }

  /** Every event finds the values as they are and keeps them. */
  ghost predicate EachKeepsValues(s: FormNow, events: seq<Event>)
    requires WellFormed(s) && AllTextOnly(events)
  {
    forall i :: 0 <= i < |events| ==> KeepsAt(s, events, i)
  }

  /** A confirmation after `i` events makes the first values the snapshot. */
  ghost predicate ConfirmedAt(s: FormNow, events: seq<Event>, i: nat)
    requires WellFormed(s) && AllTextOnly(events) && i <= |events|
  {
    AfterUpdate(AfterEvents(s, events[..i]), SavedByDaemon).original == ValuesOf(s.fields)
  }

  ghost predicate ConfirmedAnyTime(s: FormNow, events: seq<Event>)
    requires WellFormed(s) && AllTextOnly(events)
  {
    forall i :: 0 <= i <= |events| ==> ConfirmedAt(s, events, i)
  }

  /** One more event keeps what a confirmation would find exactly if it keeps the values. */
  lemma {:induction false} ConfirmedOneLater(s: FormNow, events: seq<Event>, i: nat)
    requires WellFormed(s) && AllTextOnly(events) && i < |events| && ConfirmedAt(s, events, i)
    ensures ConfirmedAt(s, events, i + 1) <==> KeepsAt(s, events, i)
  {
    assert events[..i + 1][..i] == events[..i];
    assert AfterEvents(s, events[..i + 1]) == Next(AfterEvents(s, events[..i]), events[i]);
    KeepsValuesExactly(AfterEvents(s, events[..i]), events[i]);
  }

  lemma {:induction false} ConfirmedSoFar(s: FormNow, events: seq<Event>, n: nat)
    requires WellFormed(s) && AllTextOnly(events) && EachKeepsValues(s, events) && n <= |events|
    ensures ConfirmedAt(s, events, n)
    decreases n
  {
    if n == 0 {
      assert events[..0] == [];
    } else {
      ConfirmedSoFar(s, events, n - 1);
      assert KeepsAt(s, events, n - 1);
      ConfirmedOneLater(s, events, n - 1);
    }
  }

  /** Over any session after a save, the daemon's confirmation makes the values that were sent the
      snapshot, whenever it comes, exactly if each event finds nothing to change. */
  lemma {:induction false} ConfirmedAnyTimeExactly(s: FormNow, events: seq<Event>)
    requires WellFormed(s) && AllTextOnly(events) && s.dirty && s.edit == None
    ensures SentBy(s, Char('s')) == Some(TableOf(s.fields)) && AfterKey(s, Char('s')) == s
    ensures ConfirmedAnyTime(s, events) <==> EachKeepsValues(s, events)
  {
    if EachKeepsValues(s, events) {
      forall i | 0 <= i <= |events| ensures ConfirmedAt(s, events, i) {
        ConfirmedSoFar(s, events, i);
      }
    }
    if ConfirmedAnyTime(s, events) {
      forall i | 0 <= i < |events| ensures KeepsAt(s, events, i) {
        assert ConfirmedAt(s, events, i) && ConfirmedAt(s, events, i + 1);
        ConfirmedOneLater(s, events, i);
      }
    }
  }

  /** A new form with one switch: switch it on, save, switch it off, confirmation. The daemon has it on, the
      form shows it off and saved, and a further save sends nothing. */
  lemma UnsavedSwitchLooksSaved()
    ensures var start := FormNow([Field("on", Bool(false), true)], 0, false, [Bool(false)], None);
            var edited := AfterKey(start, Char(' '));
            var end := AfterUpdate(AfterKey(AfterKey(edited, Char('s')), Char(' ')), SavedByDaemon);
            && SentBy(edited, Char('s')) == Some(map["on" := Boolean(true)])
            && ValuesOf(end.fields) == end.original == [Bool(false)] && !end.dirty && SentBy(end, Char('s')) == None
  {
    assert TableOf([Field("on", Bool(true), true)][..0]) == map[];
  }
}
