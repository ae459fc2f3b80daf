/** The TUI's inline text editor: a UTF-8 byte buffer with a byte offset as cursor
    (tux-tui/src/model.rs), and the character sequence with a gap that it stands for. */
module Utf8Text {
  import opened Prelude

  // ---- UTF-8, section 3 of RFC 3629 ------------------------------------------

  function Encode(c: char): (r: seq<u8>)
    ensures 1 <= |r| <= 4
  {
    var n := c as int;
    if n < 0x80 then [n]
    else if n < 0x800 then [0xC0 + n / 64, 0x80 + n % 64]
    else if n < 0x1_0000 then [0xE0 + n / 4096, 0x80 + n / 64 % 64, 0x80 + n % 64]
    else [0xF0 + n / 262144, 0x80 + n / 4096 % 64, 0x80 + n / 64 % 64, 0x80 + n % 64]
  }

  predicate IsContinuation(b: u8) {
    0x80 <= b < 0xC0
  }

  function EncodeAll(s: string): seq<u8> {
    if s == "" then [] else EncodeAll(s[..|s| - 1]) + Encode(s[|s| - 1])
  }

  /** The first byte of a character starts it, every other byte continues it. */
  lemma EncodeShape(c: char)
    ensures !IsContinuation(Encode(c)[0])
    ensures forall i :: 0 < i < |Encode(c)| ==> IsContinuation(Encode(c)[i])
  {
  }

  /** The code point that one encoded character stands for. */
  function Decode(bytes: seq<int>): int
    requires 1 <= |bytes| <= 4
  {
    if |bytes| == 1 then bytes[0]
    else if |bytes| == 2 then (bytes[0] - 0xC0) * 64 + (bytes[1] - 0x80)
    else if |bytes| == 3 then (bytes[0] - 0xE0) * 4096 + (bytes[1] - 0x80) * 64 + (bytes[2] - 0x80)
    else (bytes[0] - 0xF0) * 262144 + (bytes[1] - 0x80) * 4096 + (bytes[2] - 0x80) * 64 + (bytes[3] - 0x80)
  }

  lemma SixBitDigits(n: nat)
    ensures n == n / 64 * 64 + n % 64
    ensures n == n / 4096 * 4096 + n / 64 % 64 * 64 + n % 64
    ensures n == n / 262144 * 262144 + n / 4096 % 64 * 4096 + n / 64 % 64 * 64 + n % 64
  {
    var a := n / 64;
    var b := a / 64;
    assert b == n / 4096;
    assert b / 64 == n / 262144;
  }

  lemma DecodeEncode(c: char)
    ensures Decode(Encode(c)) == c as int
  {
    SixBitDigits(c as int);
  }

  lemma EncodeExamples()
    ensures Encode('a') == [0x61] && Encode('\U{E9}') == [0xC3, 0xA9]
    ensures Encode('\U{20AC}') == [0xE2, 0x82, 0xAC] && Encode('\U{1F600}') == [0xF0, 0x9F, 0x98, 0x80]
  {
  }

  lemma EncodeInjective(c: char, d: char)
    requires Encode(c) == Encode(d)
    ensures c == d
  {
    DecodeEncode(c);
    DecodeEncode(d);
  }

  lemma {:induction false} EncodeAllConcat(a: string, b: string)
    ensures EncodeAll(a + b) == EncodeAll(a) + EncodeAll(b)
  {
    if b == "" {
      assert a + b == a;
    } else {
      var b', last := b[..|b| - 1], b[|b| - 1];
      assert (a + b)[..|a + b| - 1] == a + b';
      EncodeAllConcat(a, b');
      ConcatAssociates(EncodeAll(a), EncodeAll(b'), Encode(last));
    }
  }

  lemma EncodeOne(c: char)
    ensures EncodeAll([c]) == Encode(c)
  {
    assert [c][..0] == "";
  }

  // ---- The editor on bytes ------------------------------------------------------

  datatype TextEdit = TextEdit(buffer: seq<u8>, cursor: nat)

  /** Where the character that ends before `at` starts. */
  function PrevStart(buffer: seq<u8>, at: nat): (r: nat)
    requires 0 < at <= |buffer|
    ensures r < at
  {
    if at == 1 || !IsContinuation(buffer[at - 1]) then at - 1 else PrevStart(buffer, at - 1)
  }

  /** Where the character that starts at `at` ends. */
  function NextStart(buffer: seq<u8>, at: nat): (r: nat)
    requires at < |buffer|
    ensures at < r <= |buffer|
    decreases |buffer| - at
  {
    if at + 1 == |buffer| || !IsContinuation(buffer[at + 1]) then at + 1 else NextStart(buffer, at + 1)
  }

  datatype Key = Input(c: char) | Backspace | Delete | Left | Right

  /** The five editing functions; a cursor past the end would panic in the source. */
  function Press(t: TextEdit, key: Key): TextEdit
    requires t.cursor <= |t.buffer|
  {
    var before, after := t.buffer[..t.cursor], t.buffer[t.cursor..];
    match key
    case Input(c) => TextEdit(before + Encode(c) + after, t.cursor + |Encode(c)|)
    case Backspace =>
      if t.cursor == 0 then t
      else var prev := PrevStart(t.buffer, t.cursor); TextEdit(t.buffer[..prev] + after, prev)
    case Delete =>
      if t.cursor == |t.buffer| then t
      else TextEdit(before + t.buffer[NextStart(t.buffer, t.cursor)..], t.cursor)
    case Left => if t.cursor == 0 then t else t.(cursor := PrevStart(t.buffer, t.cursor))
    case Right => if t.cursor == |t.buffer| then t else t.(cursor := NextStart(t.buffer, t.cursor))
  }

  // ---- The editor on characters ---------------------------------------------------

  /** The characters before and after the cursor. */
  datatype Gap = Gap(left: string, right: string)

  function PressGap(g: Gap, key: Key): Gap {
    match key
    case Input(c) => Gap(g.left + [c], g.right)
    case Backspace => if g.left == "" then g else Gap(g.left[..|g.left| - 1], g.right)
    case Delete => if g.right == "" then g else Gap(g.left, g.right[1..])
    case Left => if g.left == "" then g else Gap(g.left[..|g.left| - 1], [g.left[|g.left| - 1]] + g.right)
    case Right => if g.right == "" then g else Gap(g.left + [g.right[0]], g.right[1..])
  }

  ghost predicate Represents(t: TextEdit, g: Gap) {
    t.buffer == EncodeAll(g.left) + EncodeAll(g.right) && t.cursor == |EncodeAll(g.left)|
  }

  predicate OnBoundary(t: TextEdit) {
    t.cursor == |t.buffer| || (t.cursor < |t.buffer| && !IsContinuation(t.buffer[t.cursor]))
  }

  /** Stepping back over a character. */
  lemma {:induction false} PrevStartIs(buffer: seq<u8>, start: nat, at: nat)
    requires start < at <= |buffer|
    requires start == 0 || !IsContinuation(buffer[start])
    requires forall i :: start < i < at ==> IsContinuation(buffer[i])
    ensures PrevStart(buffer, at) == start
    decreases at
  {
    if at > start + 1 {
      PrevStartIs(buffer, start, at - 1);
    }
  }

  /** Stepping forward over a character. */
  lemma {:induction false} NextStartIs(buffer: seq<u8>, at: nat, end: nat)
    requires at < end <= |buffer|
    requires end == |buffer| || !IsContinuation(buffer[end])
    requires forall i :: at < i < end ==> IsContinuation(buffer[i])
    ensures NextStart(buffer, at) == end
    decreases end - at
  {
    if at + 1 < end {
      NextStartIs(buffer, at + 1, end);
    }
  }

  /** Encoded text never starts with a continuation byte. */
  lemma EncodeAllStart(s: string)
    ensures s == "" <==> EncodeAll(s) == []
    ensures s != "" ==> !IsContinuation(EncodeAll(s)[0])
    ensures s != "" ==> EncodeAll(s) == Encode(s[0]) + EncodeAll(s[1..])
  {
    if s != "" {
      EncodeOne(s[0]);
      EncodeShape(s[0]);
      EncodeAllConcat([s[0]], s[1..]);
      assert s == [s[0]] + s[1..];
    }
  }

  lemma BackFromCursor(t: TextEdit, g: Gap)
    requires Represents(t, g) && g.left != ""
    ensures PrevStart(t.buffer, t.cursor) == |EncodeAll(g.left[..|g.left| - 1])|
    ensures t.buffer[..|EncodeAll(g.left[..|g.left| - 1])|] == EncodeAll(g.left[..|g.left| - 1])
  {
    var keep, c := g.left[..|g.left| - 1], g.left[|g.left| - 1];
    var start := |EncodeAll(keep)|;
    EncodeShape(c);
    forall i | start <= i < t.cursor
      ensures t.buffer[i] == Encode(c)[i - start]
    {
    }
    PrevStartIs(t.buffer, start, t.cursor);
  }

  /** The buffer around the character after the cursor. */
  lemma SplitAtCursor(t: TextEdit, g: Gap)
    requires Represents(t, g) && g.right != ""
    ensures t.buffer == EncodeAll(g.left) + Encode(g.right[0]) + EncodeAll(g.right[1..])
    ensures EncodeAll(g.left + [g.right[0]]) == EncodeAll(g.left) + Encode(g.right[0])
  {
    EncodeAllStart(g.right);
    EncodeOne(g.right[0]);
    EncodeAllConcat(g.left, [g.right[0]]);
    ConcatAssociates(EncodeAll(g.left), Encode(g.right[0]), EncodeAll(g.right[1..]));
  }

  /** The character between two pieces of a buffer, seen from its first byte. */
  lemma NextStartBetween(before: seq<u8>, c: char, rest: string)
    ensures var buffer := before + Encode(c) + EncodeAll(rest);
            NextStart(buffer, |before|) == |before| + |Encode(c)|
  {
    var buffer := before + Encode(c) + EncodeAll(rest);
    var end := |before| + |Encode(c)|;
    EncodeAllStart(rest);
    EncodeShape(c);
    assert end < |buffer| ==> buffer[end] == EncodeAll(rest)[0];
    forall i | |before| < i < end
      ensures IsContinuation(buffer[i])
    {
      assert buffer[i] == Encode(c)[i - |before|];
    }
    NextStartIs(buffer, |before|, end);
  }

  lemma ForwardFromCursor(t: TextEdit, g: Gap)
    requires Represents(t, g) && g.right != ""
    ensures t.cursor < |t.buffer| && t.cursor + |Encode(g.right[0])| <= |t.buffer|
    ensures NextStart(t.buffer, t.cursor) == t.cursor + |Encode(g.right[0])|
    ensures t.buffer[t.cursor + |Encode(g.right[0])|..] == EncodeAll(g.right[1..])
    ensures t.buffer[..t.cursor + |Encode(g.right[0])|] == EncodeAll(g.left + [g.right[0]])
  {
    SplitAtCursor(t, g);
    NextStartBetween(EncodeAll(g.left), g.right[0], g.right[1..]);
  }

  lemma InputRefines(t: TextEdit, g: Gap, c: char)
    requires Represents(t, g)
    ensures Represents(Press(t, Input(c)), PressGap(g, Input(c)))
  {
    EncodeOne(c);
    EncodeAllConcat(g.left, [c]);
  }

  lemma BackwardRefines(t: TextEdit, g: Gap, key: Key)
    requires Represents(t, g) && (key == Backspace || key == Left)
    ensures Represents(Press(t, key), PressGap(g, key))
  {
    EncodeAllStart(g.left);
    if g.left != "" {
      BackFromCursor(t, g);
      LeftKeepsText(g);
    }
  }

  lemma DeleteBytes(t: TextEdit, cut: nat)
    requires t.cursor < |t.buffer| && NextStart(t.buffer, t.cursor) == cut
    ensures Press(t, Delete) == TextEdit(t.buffer[..t.cursor] + t.buffer[cut..], t.cursor)
  {
  }

  lemma RepresentsParts(t: TextEdit, left: seq<u8>, right: seq<u8>, g: Gap)
    requires t == TextEdit(left + right, |left|) && left == EncodeAll(g.left) && right == EncodeAll(g.right)
    ensures Represents(t, g)
  {
  }

  lemma DeleteRefines(t: TextEdit, g: Gap)
    requires Represents(t, g)
    ensures Represents(Press(t, Delete), PressGap(g, Delete))
  {
    EncodeAllStart(g.right);
    if g.right != "" {
      PartsOf(t, g);
      ForwardFromCursor(t, g);
      var cut := t.cursor + |Encode(g.right[0])|;
      DeleteBytes(t, cut);
      RepresentsParts(Press(t, Delete), t.buffer[..t.cursor], t.buffer[cut..], Gap(g.left, g.right[1..]));
    }
  }

  lemma PartsOf(t: TextEdit, g: Gap)
    requires Represents(t, g)
    ensures t.cursor <= |t.buffer|
    ensures t.buffer[..t.cursor] == EncodeAll(g.left) && t.buffer[t.cursor..] == EncodeAll(g.right)
  {
  }

  lemma RightRefines(t: TextEdit, g: Gap)
    requires Represents(t, g)
    ensures Represents(Press(t, Right), PressGap(g, Right))
  {
    EncodeAllStart(g.right);
    if g.right != "" {
      ForwardFromCursor(t, g);
      SplitAtCursor(t, g);
      assert Press(t, Right) == t.(cursor := t.cursor + |Encode(g.right[0])|);
    }
  }

  /** Every key does to the bytes what it does to the characters. */
  lemma PressRefines(t: TextEdit, g: Gap, key: Key)
    requires Represents(t, g)
    ensures Represents(Press(t, key), PressGap(g, key))
  {
    match key
    case Input(c) => InputRefines(t, g, c);
    case Backspace => BackwardRefines(t, g, key);
    case Delete => DeleteRefines(t, g);
    case Left => BackwardRefines(t, g, key);
    case Right => RightRefines(t, g);
  }

  lemma LeftKeepsText(g: Gap)
    requires g.left != ""
    ensures var g' := PressGap(g, Left);
            EncodeAll(g'.left) + EncodeAll(g'.right) == EncodeAll(g.left) + EncodeAll(g.right)
  {
    var keep, c := g.left[..|g.left| - 1], g.left[|g.left| - 1];
    EncodeOne(c);
    EncodeAllConcat([c], g.right);
    ConcatAssociates(EncodeAll(keep), Encode(c), EncodeAll(g.right));
  }

  // ---- Key sequences -----------------------------------------------------------------

  function PressAllGap(g: Gap, keys: seq<Key>): Gap {
    if keys == [] then g else PressGap(PressAllGap(g, keys[..|keys| - 1]), keys[|keys| - 1])
  }

  /** The byte editor after a key sequence; it stands still if a cursor ever left the buffer. */
  function PressAll(t: TextEdit, keys: seq<Key>): TextEdit {
    if keys == [] then t
    else
      var before := PressAll(t, keys[..|keys| - 1]);
      if before.cursor <= |before.buffer| then Press(before, keys[|keys| - 1]) else before
  }

  /** Over every key sequence the byte editor stands for the character editor, and its cursor is
      on a character boundary, so no slice of the source ever panics. */
  lemma {:induction false} PressAllRefines(t: TextEdit, g: Gap, keys: seq<Key>)
    requires Represents(t, g)
    ensures Represents(PressAll(t, keys), PressAllGap(g, keys))
    ensures PressAll(t, keys).cursor <= |PressAll(t, keys).buffer| && OnBoundary(PressAll(t, keys))
  {
    if keys != [] {
      PressAllRefines(t, g, keys[..|keys| - 1]);
      PressRefines(PressAll(t, keys[..|keys| - 1]), PressAllGap(g, keys[..|keys| - 1]), keys[|keys| - 1]);
    }
    RepresentedOnBoundary(PressAll(t, keys), PressAllGap(g, keys));
  }

  lemma RepresentedOnBoundary(t: TextEdit, g: Gap)
    requires Represents(t, g)
    ensures OnBoundary(t)
  {
    EncodeAllStart(g.right);
  }

  /** The bytes determine the characters, so the character editor is determined too. */
  lemma {:induction false} EncodeAllInjective(a: string, b: string)
    requires EncodeAll(a) == EncodeAll(b)
    ensures a == b
  {
    EncodeAllStart(a);
    EncodeAllStart(b);
    if a != "" {
      SameFirstChar(a[0], EncodeAll(a[1..]), b[0], EncodeAll(b[1..]), a[1..], b[1..]);
      EncodeAllInjective(a[1..], b[1..]);
      assert a == [a[0]] + a[1..] && b == [b[0]] + b[1..];
    }
  }

  lemma FirstCharLength(c: char, rest: string)
    ensures NextStart(Encode(c) + EncodeAll(rest), 0) == |Encode(c)|
  {
    NextStartBetween([], c, rest);
    assert [] + Encode(c) == Encode(c);
  }

  lemma SplitsAlike<T>(a: seq<T>, b: seq<T>, a': seq<T>, b': seq<T>)
    requires a + b == a' + b' && |a| == |a'|
    ensures a == a' && b == b'
  {
    assert a == (a + b)[..|a|] && b == (a + b)[|a|..];
    assert a' == (a' + b')[..|a'|] && b' == (a' + b')[|a'|..];
  }

  lemma SameFirstChar(c: char, restC: seq<u8>, d: char, restD: seq<u8>, a: string, b: string)
    requires restC == EncodeAll(a) && restD == EncodeAll(b)
    requires Encode(c) + restC == Encode(d) + restD
    ensures c == d && restC == restD
  {
    FirstCharLength(c, a);
    FirstCharLength(d, b);
    SplitsAlike(Encode(c), restC, Encode(d), restD);
    EncodeInjective(c, d);
  }

  lemma RepresentationUnique(t: TextEdit, g: Gap, g': Gap)
    requires Represents(t, g) && Represents(t, g')
    ensures g == g'
  {
    assert EncodeAll(g.left) == t.buffer[..t.cursor] == EncodeAll(g'.left);
    assert EncodeAll(g.right) == t.buffer[t.cursor..] == EncodeAll(g'.right);
    EncodeAllInjective(g.left, g'.left);
    EncodeAllInjective(g.right, g'.right);
  }

  // ---- Laws of the keys --------------------------------------------------------------

  lemma SameBytes(t: TextEdit, t': TextEdit, g: Gap)
    requires Represents(t, g) && Represents(t', g)
    ensures t == t'
  {
  }

  /** A typed character is removed without trace by Backspace, and by Left then Delete. */
  lemma TypingIsUndone(t: TextEdit, g: Gap, c: char)
    requires Represents(t, g)
    ensures PressAll(t, [Input(c), Backspace]) == t
    ensures PressAll(t, [Input(c), Left, Delete]) == t
  {
    PressAllRefines(t, g, [Input(c), Backspace]);
    PressAllRefines(t, g, [Input(c), Left, Delete]);
    GapPairs(g, Input(c), Backspace);
    assert (g.left + [c])[..|g.left|] == g.left;
    assert ([c] + g.right)[1..] == g.right;
    assert [Input(c), Left, Delete][..2] == [Input(c), Left];
    GapPairs(g, Input(c), Left);
    SameBytes(PressAll(t, [Input(c), Backspace]), t, g);
    SameBytes(PressAll(t, [Input(c), Left, Delete]), t, g);
  }

  lemma GapPairs(g: Gap, k: Key, k': Key)
    ensures PressAllGap(g, [k, k']) == PressGap(PressGap(g, k), k')
  {
    assert [k, k'][..1] == [k];
    assert [k][..0] == [];
    assert PressAllGap(g, [k]) == PressGap(g, k);
  }

  lemma GapLeftRight(g: Gap)
    ensures g.left != "" ==> PressGap(PressGap(g, Left), Right) == g
    ensures g.right != "" ==> PressGap(PressGap(g, Right), Left) == g
  {
    if g.left != "" {
      assert g.left[..|g.left| - 1] + [g.left[|g.left| - 1]] == g.left;
      assert ([g.left[|g.left| - 1]] + g.right)[1..] == g.right;
    }
    if g.right != "" {
      assert (g.left + [g.right[0]])[..|g.left|] == g.left;
      assert [g.right[0]] + g.right[1..] == g.right;
    }
  }

  lemma PairOnBytes(t: TextEdit, g: Gap, k: Key, k': Key)
    requires Represents(t, g) && PressGap(PressGap(g, k), k') == g
    ensures PressAll(t, [k, k']) == t
  {
    PressAllRefines(t, g, [k, k']);
    GapPairs(g, k, k');
    SameBytes(PressAll(t, [k, k']), t, g);
  }

  /** Away from the ends, Left and Right undo each other. */
  lemma LeftRightInverse(t: TextEdit, g: Gap)
    requires Represents(t, g)
    ensures t.cursor > 0 ==> PressAll(t, [Left, Right]) == t
    ensures t.cursor < |t.buffer| ==> PressAll(t, [Right, Left]) == t
  {
    EncodeAllStart(g.left);
    EncodeAllStart(g.right);
    GapLeftRight(g);
    if g.left != "" {
      PairOnBytes(t, g, Left, Right);
    }
    if g.right != "" {
      PairOnBytes(t, g, Right, Left);
    }
  }
}
