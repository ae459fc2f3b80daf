/** Profile ids: which are safe file names, and the search for a free id for a copy
    (tux-daemon/src/profile_store.rs). */
module CopyIds {
  import opened Prelude

  type Id = string

  // ---- Valid ids -----------------------------------------------------------

  predicate HasDotDot(id: Id) {
    exists i :: 0 <= i < |id| - 1 && id[i] == '.' && id[i + 1] == '.'
  }

  /** The check shared by `validate_id` and `profile_path`. */
  predicate SafePath(id: Id) {
    !HasDotDot(id) && '/' !in id && '\\' !in id
  }

  predicate Reserved(id: Id) {
    |id| >= 2 && id[0] == '_' && id[1] == '_'
  }

  /** `validate_id` succeeds. */
  predicate ValidId(id: Id) {
    id != "" && SafePath(id) && !Reserved(id)
  }

  // ---- From a name to candidate ids ------------------------------------------

  /** Unicode's lower-casing and alphanumeric test, of which only this much is used: none of the
      characters that matter for paths is alphanumeric. */
  datatype Unicode = Unicode(lower: string -> string, alnum: char -> bool) {
    ghost predicate Sound() {
      !alnum('.') && !alnum('/') && !alnum('\\') && !alnum('_')
    }
  }

  function ReplaceSpaces(s: string): string {
    if s == "" then "" else (if s[0] == ' ' then "-" else [s[0]]) + ReplaceSpaces(s[1..])
  }

  function KeepIdChars(u: Unicode, s: string): string {
    if s == "" then "" else (if u.alnum(s[0]) || s[0] == '-' then [s[0]] else "") + KeepIdChars(u, s[1..])
  }

  function Slug(u: Unicode, s: string): string {
    KeepIdChars(u, ReplaceSpaces(s))
  }

  function Base(u: Unicode, name: string): string {
    Slug(u, u.lower(name))
  }

  /** What one character of a name comes to. */
  function Kept(u: Unicode, c: char): string {
    var d := if c == ' ' then '-' else c;
    if u.alnum(d) || d == '-' then [d] else ""
  }

  function Digit(d: nat): char
    requires d < 10
  {
    ['0', '1', '2', '3', '4', '5', '6', '7', '8', '9'][d]
  }

  function Decimal(n: nat): (s: string)
    ensures |s| > 0
  {
    if n < 10 then [Digit(n)] else Decimal(n / 10) + [Digit(n % 10)]
  }

  /** Candidate `k`, counted from 1: `base-copy`, `base-copy-2`, `base-copy-3`, ... */
  function Candidate(base: string, k: nat): Id
    requires k >= 1
  {
    if k == 1 then base + "-copy" else base + "-copy-" + Decimal(k)
  }

  ghost predicate Contains(s: string, part: string) {
    exists a: string, b: string :: s == a + part + b
  }

  lemma ContainsChar(s: string, c: char)
    ensures Contains(s, [c]) <==> c in s
  {
    if c in s {
      var i :| 0 <= i < |s| && s[i] == c;
      assert s == s[..i] + [c] + s[i + 1..];
    }
    forall a: string, b: string | s == a + [c] + b ensures c in s {
      assert s[|a|] == c;
    }
  }

  lemma ContainsDotDot(s: string)
    ensures Contains(s, "..") <==> HasDotDot(s)
  {
    if HasDotDot(s) {
      var i :| 0 <= i < |s| - 1 && s[i] == '.' && s[i + 1] == '.';
      assert s == s[..i] + ".." + s[i + 2..];
    }
    forall a: string, b: string | s == a + ".." + b ensures HasDotDot(s) {
      assert s[|a|] == '.' && s[|a| + 1] == '.';
    }
  }

  /** An id is refused exactly if it is empty, contains `..`, `/` or a backslash, or starts with `__`. */
  lemma RefusedExactly(id: Id)
    ensures !ValidId(id) <==> id == "" || Contains(id, "..") || Contains(id, "/") || Contains(id, "\\") || "__" <= id
    ensures !SafePath(id) <==> Contains(id, "..") || Contains(id, "/") || Contains(id, "\\")
  {
    ContainsDotDot(id);
    ContainsChar(id, '/');
    ContainsChar(id, '\\');
    assert "/" == ['/'] && "\\" == ['\\'];
    assert "__" <= id <==> |id| >= 2 && id[..2] == "__";
    assert |id| >= 2 ==> id[..2] == [id[0], id[1]];
  }

  lemma SlugOfFirst(u: Unicode, s: string)
    requires s != ""
    ensures Slug(u, s) == Kept(u, s[0]) + Slug(u, s[1..])
  {
    assert ReplaceSpaces(s)[1..] == ReplaceSpaces(s[1..]);
  }

  lemma SlugOfAppended(u: Unicode, s: string, t: string)
    requires s != ""
    ensures Slug(u, s + t) == Kept(u, s[0]) + Slug(u, s[1..] + t)
  {
    assert (s + t)[1..] == s[1..] + t;
    SlugOfFirst(u, s + t);
  }

  lemma {:induction false} SlugAppends(u: Unicode, s: string, t: string)
    ensures Slug(u, s + t) == Slug(u, s) + Slug(u, t)
  {
    if s == "" {
      assert s + t == t;
    } else {
      SlugAppends(u, s[1..], t);
      SlugOfFirst(u, s);
      SlugOfAppended(u, s, t);
      ConcatAssociates(Kept(u, s[0]), Slug(u, s[1..]), Slug(u, t));
    }
  }

  /** Character by character, the base of a name keeps what is alphanumeric or a dash after lower-casing, turns
      spaces into dashes, and drops the rest. */
  lemma BaseByCharacter(u: Unicode, name: string, before: string, c: char, after: string)
    requires u.lower(name) == before + [c] + after
    ensures Base(u, name) == Slug(u, before) + (if c == ' ' || c == '-' then "-" else if u.alnum(c) then [c] else "") + Slug(u, after)
    ensures Slug(u, "") == ""
  {
    SlugAppends(u, before + [c], after);
    SlugAppends(u, before, [c]);
    SlugOfFirst(u, [c]);
  }

  /** The number that a sequence of decimal digits stands for. */
  function ReadDecimal(s: string): int {
    if s == "" then 0 else 10 * ReadDecimal(s[..|s| - 1]) + (s[|s| - 1] as int - '0' as int)
  }

  /** A decimal number reads back, is written in digits, and has no leading zero. */
  lemma {:induction false} DecimalReadsBack(n: nat)
    ensures ReadDecimal(Decimal(n)) == n
    ensures forall i :: 0 <= i < |Decimal(n)| ==> '0' <= Decimal(n)[i] <= '9'
    ensures n > 0 ==> Decimal(n)[0] != '0'
  {
    if n >= 10 {
      DecimalReadsBack(n / 10);
      assert Decimal(n)[..|Decimal(n)| - 1] == Decimal(n / 10);
    } else {
      assert Decimal(n)[..0] == "";
    }
  }

  lemma CandidatesExample()
    ensures Candidate("work", 1) == "work-copy" && Candidate("work", 2) == "work-copy-2" && Candidate("work", 10) == "work-copy-10"
  {
    assert Decimal(10) == Decimal(1) + [Digit(0)];
  }

  lemma {:induction false} DecimalInjective(m: nat, n: nat)
    ensures Decimal(m) == Decimal(n) ==> m == n
  {
    if Decimal(m) == Decimal(n) {
      assert Decimal(m)[|Decimal(m)| - 1] == Digit(m % 10) && Decimal(n)[|Decimal(n)| - 1] == Digit(n % 10);
      if m >= 10 && n >= 10 {
        assert Decimal(m / 10) == Decimal(m)[..|Decimal(m)| - 1] == Decimal(n)[..|Decimal(n)| - 1] == Decimal(n / 10);
        DecimalInjective(m / 10, n / 10);
      }
    }
  }

  lemma {:induction false} DecimalIsDigits(n: nat)
    ensures forall i :: 0 <= i < |Decimal(n)| ==> '0' <= Decimal(n)[i] <= '9'
  {
    if n >= 10 {
      DecimalIsDigits(n / 10);
    }
  }

  lemma CandidatesDistinct(base: string, j: nat, k: nat)
    requires 1 <= j < k
    ensures Candidate(base, j) != Candidate(base, k)
  {
    var prefix := base + "-copy-";
    assert Candidate(base, k)[|prefix|..] == Decimal(k);
    if j == 1 {
      assert |Candidate(base, j)| < |Candidate(base, k)|;
    } else {
      assert Candidate(base, j)[|prefix|..] == Decimal(j);
      DecimalInjective(j, k);
    }
  }

  // ---- The search terminates ----------------------------------------------------

  ghost function FirstCandidates(base: string, n: nat): (s: set<Id>)
    ensures forall k :: 1 <= k <= n ==> Candidate(base, k) in s
  {
    if n == 0 then {} else FirstCandidates(base, n - 1) + {Candidate(base, n)}
  }

  lemma {:induction false} FirstCandidatesCount(base: string, n: nat)
    ensures |FirstCandidates(base, n)| == n
    ensures forall id :: id in FirstCandidates(base, n) ==> exists k :: 1 <= k <= n && id == Candidate(base, k)
  {
    if n > 0 {
      FirstCandidatesCount(base, n - 1);
      forall k | 1 <= k <= n - 1
        ensures Candidate(base, k) != Candidate(base, n)
      {
        CandidatesDistinct(base, k, n);
      }
    }
  }

  lemma {:induction false} SubsetIsSmaller<T>(a: set<T>, b: set<T>)
    requires a <= b
    ensures |a| <= |b|
  {
    if a != {} {
      var x :| x in a;
      SubsetIsSmaller(a - {x}, b - {x});
    }
  }

  /** Pigeonhole: among `n` taken ids at most the first `n` candidates can be taken. */
  lemma TakenCandidatesBounded(base: string, n: nat, taken: set<Id>)
    requires forall k :: 1 <= k <= n ==> Candidate(base, k) in taken
    ensures n <= |taken|
  {
    FirstCandidatesCount(base, n);
    forall id | id in FirstCandidates(base, n)
      ensures id in taken
    {
      var k :| 1 <= k <= n && id == Candidate(base, k);
    }
    SubsetIsSmaller(FirstCandidates(base, n), taken);
  }

  // ---- Candidates are valid ids --------------------------------------------------

  /** Neither path characters nor an underscore. */
  predicate PlainChar(c: char) {
    c != '.' && c != '/' && c != '\\' && c != '_'
  }

  ghost predicate Plain(s: string) {
    forall i :: 0 <= i < |s| ==> PlainChar(s[i])
  }

  lemma {:induction false} KeptCharsArePlain(u: Unicode, s: string)
    requires u.Sound()
    ensures Plain(KeepIdChars(u, s))
  {
    if s != "" {
      KeptCharsArePlain(u, s[1..]);
    }
  }

  lemma PlainIsValid(id: Id)
    requires Plain(id) && id != ""
    ensures ValidId(id)
  {
    forall i | 0 <= i < |id|
      ensures id[i] != '/' && id[i] != '\\' && id[i] != '.'
    {
      assert PlainChar(id[i]);
    }
    assert PlainChar(id[0]);
  }

  /** Every candidate passes `validate_id`, whatever the profile's name. */
  lemma CandidatesAreValid(u: Unicode, name: string, k: nat)
    requires u.Sound() && k >= 1
    ensures ValidId(Candidate(Base(u, name), k))
  {
    KeptCharsArePlain(u, ReplaceSpaces(u.lower(name)));
    DecimalIsDigits(k);
    PlainIsValid(Candidate(Base(u, name), k));
  }

  /** `generate_copy_id`: the first free candidate, found within one more try than there are custom
      profiles, and always valid. */
  method GenerateCopyId(u: Unicode, name: string, builtins: set<Id>, custom: set<Id>) returns (id: Id, ghost tries: nat)
    requires u.Sound() && forall b :: b in builtins ==> Reserved(b)
    ensures id !in builtins && id !in custom && ValidId(id)
    ensures 1 <= tries <= |custom| + 1 && id == Candidate(Base(u, name), tries)
    ensures forall k :: 1 <= k < tries ==> Candidate(Base(u, name), k) in custom
  {
    var base := Base(u, name);
    id := base + "-copy";
    tries := 1;
    CandidatesAreValid(u, name, 1);
    if id !in builtins && id !in custom { return; }
    var i := 2;
    while true
      invariant i >= 2
      invariant forall k :: 1 <= k < i ==> Candidate(base, k) in custom
      decreases |custom| + 1 - i
    {
      TakenCandidatesBounded(base, i - 1, custom);
      CandidatesAreValid(u, name, i);
      id := base + "-copy-" + Decimal(i);
      tries := i;
      if id !in builtins && id !in custom { return; }
      TakenCandidatesBounded(base, i, custom);
      i := i + 1;
    }
  }
}
