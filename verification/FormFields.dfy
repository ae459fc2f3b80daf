/** Field values of the TUI's forms: adjusting them, and their way into and out of a
    key-to-value table (tux-tui/src/model.rs, tux-tui/src/update.rs). */
module FormFields {
  import opened Prelude
  import opened Utf8Text

  /** A UTF-8 string as its bytes. */
  type Str = seq<u8>

  const I64_MIN: int := -0x8000_0000_0000_0000
  const I64_MAX: int := 0x7FFF_FFFF_FFFF_FFFF

  datatype Value =
    | Text(text: Str)
    | Number(value: int, min: int, max: int, step: int)
    | FreqMhz(value: int, min: int, max: int, step: int)
    | Bool(on: bool)
    | Select(options: seq<Str>, selected: nat)

  datatype Field = Field(key: string, value: Value, enabled: bool)

  ghost predicate IsUtf8(s: Str) {
    exists chars :: s == EncodeAll(chars)
  }

  /** Numbers within their bounds, selections within their options, texts and options that are text. */
  ghost predicate Sound(v: Value) {
    match v
    case Text(s) => IsUtf8(s)
    case Number(value, min, max, step) => I64_MIN <= min <= value <= max <= I64_MAX && I64_MIN <= step <= I64_MAX
    case FreqMhz(value, min, max, step) => I64_MIN <= min <= value <= max <= I64_MAX && I64_MIN <= step <= I64_MAX
    case Bool(_) => true
    case Select(options, selected) =>
      (options == [] || selected < |options|) && forall i :: 0 <= i < |options| ==> IsUtf8(options[i])
  }

  // ---- Adjusting ----------------------------------------------------------

  function Saturate(x: int): int {
    Clamp(x, I64_MIN, I64_MAX)
  }

  function AdjustNumber(value: int, min: int, max: int, step: int, delta: int): int
    requires min <= max
  {
    Clamp(Saturate(value + Saturate(delta * step)), min, max)
  }

  /** What the arrow keys do to a value, if anything. */
  function Adjusted(v: Value, delta: int): Option<Value>
    requires v.Number? || v.FreqMhz? ==> v.min <= v.max
  {
    match v
    case Number(value, min, max, step) => Some(Number(AdjustNumber(value, min, max, step, delta), min, max, step))
    case FreqMhz(value, min, max, step) => Some(FreqMhz(AdjustNumber(value, min, max, step, delta), min, max, step))
    case Bool(on) => Some(Bool(!on))
    case Select(options, selected) =>
      if options == [] then None else Some(v.(selected := (selected + delta) % |options|))
    case Text(_) => None
  }

  /** What the space bar does to a value, if anything. */
  function Toggled(v: Value): Option<Value> {
    match v
    case Bool(on) => Some(Bool(!on))
    case Select(options, selected) => if options == [] then None else Some(v.(selected := (selected + 1) % |options|))
    case _ => None
  }

  /** The arrow keys undo each other on a value except where a bound cut the step short. */
  lemma AdjustUndoneExactly(v: Value)
    requires Sound(v) && (v.Number? || v.FreqMhz? ==> v.step > 0)
    requires Adjusted(v, 1).Some?
    ensures Adjusted(Adjusted(v, 1).value, -1) == Some(v) <==>
            (v.Number? || v.FreqMhz? ==> v.value + v.step <= v.max || (v.value == v.min && v.max - v.step <= v.min))
  {
    if v.Select? {
      var n := |v.options|;
      ModBelowTwice(v.selected + 1, n);
      if v.selected + 1 < n {
        ModBelowTwice(v.selected, n);
      } else {
        assert (v.selected + 1) % n == 0;
        ModBelowTwice(n - 1, n);
        ModOfMinusOne(n);
      }
    }
  }

  lemma ModOfMinusOne(n: int)
    requires n > 0
    ensures (-1) % n == n - 1
  {
    var q := (-1) / n;
    assert -1 == q * n + (-1) % n;
    MultiplesOrdered(-1, q, n);
    MultiplesOrdered(q, -1, n);
  }

  /** One press of an arrow key: a number goes one step up or down and stops at its bounds, a switch flips, a
      selection goes on by one in the direction of the key, around the ends, and a text stays. */
  lemma AdjustedMeans(v: Value, delta: int)
    requires Sound(v) && (delta == 1 || delta == -1) && (v.Number? || v.FreqMhz? ==> v.step > I64_MIN)
    ensures v.Text? || (v.Select? && v.options == []) <==> Adjusted(v, delta) == None
    ensures v.Number? || v.FreqMhz? ==>
              var target := if delta == 1 then v.value + v.step else v.value - v.step;
              Adjusted(v, delta) == Some(v.(value := if target > v.max then v.max else if target < v.min then v.min else target))
    ensures v.Bool? ==> Adjusted(v, delta) == Some(Bool(!v.on))
    ensures v.Select? && v.options != [] ==>
              var n := |v.options|;
              Adjusted(v, delta) == Some(Select(v.options, if delta == 1 then (if v.selected + 1 == n then 0 else v.selected + 1)
                                                           else (if v.selected == 0 then n - 1 else v.selected - 1)))
  {
    if v.Select? && v.options != [] {
      var n := |v.options|;
      if delta == 1 {
        ModBelowTwice(v.selected + 1, n);
      } else if v.selected > 0 {
        ModBelowTwice(v.selected - 1, n);
      } else {
        ModOfMinusOne(n);
      }
    }
  }

  /** The space bar flips a switch, advances a selection, around the end, and leaves everything else. */
  lemma ToggledMeans(v: Value)
    requires Sound(v)
    ensures Toggled(v) == match v
              case Bool(on) => Some(Bool(!on))
              case Select(options, i) =>
                if options == [] then None else Some(Select(options, if i + 1 == |options| then 0 else i + 1))
              case _ => None
  {
    if v.Select? && v.options != [] {
      ModBelowTwice(v.selected + 1, |v.options|);
    }
  }

  // ---- Tables ---------------------------------------------------------------

  /** A TOML value, as far as forms use them. */
  datatype Toml = Str(text: Str) | Int(n: int) | Boolean(on: bool) | Other

  function Saved(v: Value): Toml {
    match v
    case Text(s) => Str(s)
    case Number(value, _, _, _) => Int(value)
    case FreqMhz(value, _, _, _) => Int(value)
    case Bool(on) => Boolean(on)
    case Select(options, selected) => Str(if selected < |options| then options[selected] else [])
  }

  /** The first option equal to `s`, at or after `k`. */
  function Position(options: seq<Str>, s: Str, k: nat): (r: Option<nat>)
    ensures r.Some? ==> k <= r.value < |options| && options[r.value] == s && forall i :: k <= i < r.value ==> options[i] != s
    ensures r.None? ==> forall i :: k <= i < |options| ==> options[i] != s
    decreases |options| - k
  {
    if k >= |options| then None else if options[k] == s then Some(k) else Position(options, s, k + 1)
  }

  /** Loading keeps the field's shape; a table value of another type, or an unknown option, is ignored. */
  function Loaded(v: Value, t: Toml): Value
    requires v.Number? || v.FreqMhz? ==> v.min <= v.max
  {
    match (v, t)
    case (Text(_), Str(s)) => Text(s)
    case (Number(_, min, max, step), Int(n)) => Number(Clamp(n, min, max), min, max, step)
    case (FreqMhz(_, min, max, step), Int(n)) => FreqMhz(Clamp(n, min, max), min, max, step)
    case (Bool(_), Boolean(on)) => Bool(on)
    case (Select(options, _), Str(s)) =>
      (match Position(options, s, 0) case Some(i) => v.(selected := i) case None => v)
    case _ => v
  }

  /** A saved value is the text, the number, the truth value or the text of the selected option. A loaded one
      takes over a text, a number moved to the nearer bound if it is outside, a truth value, or the first option
      of that text; anything else leaves the field as it was. */
  lemma SavedAndLoadedMean(v: Value, t: Toml)
    requires Sound(v)
    ensures Saved(v) == match v
              case Text(s) => Str(s)
              case Bool(on) => Boolean(on)
              case Select(options, i) => Str(if options == [] then [] else options[i])
              case _ => Int(v.value)
    ensures v.Text? ==> Loaded(v, t) == if t.Str? then Text(t.text) else v
    ensures v.Bool? ==> Loaded(v, t) == if t.Boolean? then Bool(t.on) else v
    ensures v.Number? || v.FreqMhz? ==>
              Loaded(v, t) == if t.Int? then v.(value := if t.n < v.min then v.min else if t.n > v.max then v.max else t.n) else v
    ensures v.Select? ==>
              if t.Str? && t.text in v.options
              then Loaded(v, t).Select? && Loaded(v, t).options == v.options && Loaded(v, t).selected < |v.options|
                   && v.options[Loaded(v, t).selected] == t.text && t.text !in v.options[..Loaded(v, t).selected]
              else Loaded(v, t) == v
  {
  }

  /** Same kind of field, same bounds, same options. */
  predicate SameShape(v: Value, w: Value) {
    match (v, w)
    case (Text(_), Text(_)) => true
    case (Number(_, a, b, c), Number(_, a', b', c')) => a == a' && b == b' && c == c'
    case (FreqMhz(_, a, b, c), FreqMhz(_, a', b', c')) => a == a' && b == b' && c == c'
    case (Bool(_), Bool(_)) => true
    case (Select(o, _), Select(o', _)) => o == o'
    case _ => false
  }

  /** A number within bounds; a selected option that no earlier option repeats. */
  predicate Faithful(v: Value) {
    match v
    case Number(value, min, max, _) => min <= value <= max
    case FreqMhz(value, min, max, _) => min <= value <= max
    case Select(options, selected) => selected < |options| && options[selected] !in options[..selected]
    case _ => true
  }

  lemma FaithfulLoads(v: Value, target: Value)
    requires SameShape(target, v) && Faithful(v)
    ensures Loaded(target, Saved(v)) == v
  {
    if v.Select? {
      var s := v.options[v.selected];
      forall i | 0 <= i < v.selected
        ensures v.options[i] != s
      {
        assert v.options[..v.selected][i] == v.options[i];
      }
    }
  }

  /** A value survives saving and loading into every field of its shape exactly when it is faithful. */
  lemma ValueRoundTripExactly(v: Value)
    requires v.Number? || v.FreqMhz? ==> v.min <= v.max
    ensures (forall target :: SameShape(target, v) ==> Loaded(target, Saved(v)) == v) <==> Faithful(v)
  {
    if Faithful(v) {
      forall target | SameShape(target, v)
        ensures Loaded(target, Saved(v)) == v
      {
        FaithfulLoads(v, target);
      }
    } else {
      assert SameShape(v, v);
      if v.Select? {
        if v.selected >= |v.options| {
          var target := v.(selected := v.selected + 1);
          assert SameShape(target, v) && Loaded(target, Saved(v)) != v;
        } else {
          var i :| 0 <= i < v.selected && v.options[..v.selected][i] == v.options[v.selected];
          assert v.options[i] == v.options[v.selected];
        }
      }
    }
  }

  // ---- Whole forms -----------------------------------------------------------

  ghost predicate UniqueKeys(fields: seq<Field>) {
    forall i, j :: 0 <= i < j < |fields| ==> fields[i].key != fields[j].key
  }

  /** The table built by inserting the fields in order; a later field of the same key wins. */
  function TableOf(fields: seq<Field>): map<string, Toml> {
    if fields == [] then map[]
    else TableOf(fields[..|fields| - 1])[fields[|fields| - 1].key := Saved(fields[|fields| - 1].value)]
  }

  /** The loop of `serialize_form_to_toml`. */
  method SerializeForm(fields: seq<Field>) returns (table: map<string, Toml>)
    ensures table == TableOf(fields)
  {
    table := map[];
    for i := 0 to |fields|
      invariant table == TableOf(fields[..i])
    {
      assert fields[..i + 1][..i] == fields[..i];
      table := table[fields[i].key := Saved(fields[i].value)];
    }
    assert fields[..|fields|] == fields;
  }

  /** With unique keys the table holds exactly the fields. */
  lemma {:induction false} TableHoldsFields(fields: seq<Field>)
    requires UniqueKeys(fields)
    ensures forall i :: 0 <= i < |fields| ==> fields[i].key in TableOf(fields) && TableOf(fields)[fields[i].key] == Saved(fields[i].value)
    ensures forall key :: key in TableOf(fields) ==> exists i :: 0 <= i < |fields| && fields[i].key == key
  {
    if fields != [] {
      var before := fields[..|fields| - 1];
      TableHoldsFields(before);
      assert forall i :: 0 <= i < |before| ==> before[i] == fields[i] && fields[i].key != fields[|fields| - 1].key;
      forall key | key in TableOf(fields)
        ensures exists i :: 0 <= i < |fields| && fields[i].key == key
      {
        if key in TableOf(before) {
          var i :| 0 <= i < |before| && before[i].key == key;
          assert fields[i].key == key;
        } else {
          assert fields[|fields| - 1].key == key;
        }
      }
    }
  }

  /** Of several fields with one key the last one is saved. */
  lemma {:induction false} LastFieldWins(fields: seq<Field>, i: nat)
    requires i < |fields| && forall j :: i < j < |fields| ==> fields[j].key != fields[i].key
    ensures fields[i].key in TableOf(fields) && TableOf(fields)[fields[i].key] == Saved(fields[i].value)
  {
    if i < |fields| - 1 {
      LastFieldWins(fields[..|fields| - 1], i);
    }
  }

  ghost predicate Loadable(v: Value) {
    v.Number? || v.FreqMhz? ==> v.min <= v.max
  }

  function LoadedField(f: Field, table: map<string, Toml>): Field
    requires Loadable(f.value)
  {
    if f.key in table then f.(value := Loaded(f.value, table[f.key])) else f
  }

  ghost predicate SameForm(fields: seq<Field>, fields': seq<Field>) {
    && |fields| == |fields'|
    && forall i :: 0 <= i < |fields| ==> fields[i].key == fields'[i].key && SameShape(fields'[i].value, fields[i].value)
  }

  /** Loading a form's table into any form of the same keys and shapes reproduces every value. */
  lemma FormRoundTrip(fields: seq<Field>, target: seq<Field>, i: nat)
    requires UniqueKeys(fields) && SameForm(fields, target) && i < |fields|
    requires Faithful(fields[i].value) && Loadable(target[i].value)
    ensures LoadedField(target[i], TableOf(fields)).value == fields[i].value
  {
    TableHoldsFields(fields);
    FaithfulLoads(fields[i].value, target[i].value);
  }

  lemma LoadedStaysSound(v: Value, t: Toml)
    requires Sound(v) && (t.Str? ==> IsUtf8(t.text))
    ensures Sound(Loaded(v, t))
  {
  }
}
