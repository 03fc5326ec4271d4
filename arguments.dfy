/**
 * The clean-up every command applies to its target-path argument before
 * using it, and the reading of clean-all's confirmation answer.
 */
module Arguments {
  import opened Text

  /** Python's `str.isspace()` on one character; `str.strip()` without an
      argument removes exactly these characters. */
  predicate IsSpace(c: char) {
    || '\t' <= c <= '\r'
    || '\U{001C}' <= c <= ' '
    || c == '\U{0085}' || c == '\U{00A0}' || c == '\U{1680}'
    || '\U{2000}' <= c <= '\U{200A}'
    || c == '\U{2028}' || c == '\U{2029}' || c == '\U{202F}' || c == '\U{205F}'
    || c == '\U{3000}'
  }

  predicate IsDoubleQuote(c: char) {
    c == '"'
  }

  predicate IsSingleQuote(c: char) {
    c == '\''
  }

  /** The text that ends the path when a flag was glued onto it. */
  const FlagMarker: string := " --"

  /** How many leading characters of `s` satisfy `cs`. */
  function LeadingIn(s: string, cs: char -> bool): (n: nat)
    ensures n <= |s|
    ensures forall k :: 0 <= k < n ==> cs(s[k])
    ensures n < |s| ==> !cs(s[n])
  {
    if s == [] || !cs(s[0]) then 0 else 1 + LeadingIn(s[1..], cs)
  }

  /** How many trailing characters of `s` satisfy `cs`. */
  function TrailingIn(s: string, cs: char -> bool): (n: nat)
    ensures n <= |s|
    ensures forall k :: |s| - n <= k < |s| ==> cs(s[k])
    ensures n < |s| ==> !cs(s[|s| - n - 1])
  {
    if s == [] || !cs(s[|s| - 1]) then 0 else 1 + TrailingIn(s[..|s| - 1], cs)
  }

  /** The slice `s[b.0..b.1]` that Python's `s.strip(chars)` keeps: every
      character cut off satisfies `cs`, and the kept text neither begins nor
      ends with such a character (so nothing more could be cut). */
  function StripBounds(s: string, cs: char -> bool): (b: (nat, nat))
    ensures b.0 <= b.1 <= |s|
    ensures forall k :: 0 <= k < b.0 ==> cs(s[k])
    ensures forall k :: b.1 <= k < |s| ==> cs(s[k])
    ensures b.0 < b.1 ==> !cs(s[b.0]) && !cs(s[b.1 - 1])
  {
    var i := LeadingIn(s, cs);
    var t := TrailingIn(s[i..], cs);
    (i, |s| - t)
  }

  /** Python's `s.strip(chars)`, with `chars` given as a predicate. */
  function Strip(s: string, cs: char -> bool): string {
    var b := StripBounds(s, cs);
    s[b.0..b.1]
  }

  /** `raw.strip().strip('"').strip("'")`. */
  function Unquoted(raw: string): string {
    Strip(Strip(Strip(raw, IsSpace), IsDoubleQuote), IsSingleQuote)
  }

  /** The target path a command works on: the unquoted argument, cut before
      the first `" --"` when it holds one (`split(' --')[0]`). */
  function Sanitise(raw: string): string {
    var s := Unquoted(raw);
    if Contains(s, FlagMarker) then s[..Find(s, FlagMarker)] else s
  }

  /** The sanitised path never holds the flag marker. */
  lemma SanitiseDropsFlags(raw: string)
    ensures !Contains(Sanitise(raw), FlagMarker)
  {
    var s := Unquoted(raw);
    if Contains(s, FlagMarker) {
      var f := Find(s, FlagMarker);
      var r := s[..f];
      if k :| OccursAt(r, FlagMarker, k) {
        assert s[k..k + |FlagMarker|] == r[k..k + |FlagMarker|];
        assert OccursAt(s, FlagMarker, k);
      }
    }
  }

  /** The sanitised path begins the unquoted argument, and is all of it
      exactly when the argument holds no `" --"`. */
  lemma SanitiseKeepsUnflagged(raw: string)
    ensures StartsWith(Unquoted(raw), Sanitise(raw))
    ensures Sanitise(raw) == Unquoted(raw) <==> !Contains(Unquoted(raw), FlagMarker)
  {
    SanitiseDropsFlags(raw);
  }

  lemma SliceOfSlice(s: string, i: nat, j: nat, k: nat, l: nat)
    requires i <= j <= |s| && k <= l <= j - i
    ensures s[i..j][k..l] == s[i + k..i + l]
  {
    assert |s[i..j][k..l]| == l - k == |s[i + k..i + l]|;
    forall n | 0 <= n < l - k
      ensures s[i..j][k..l][n] == s[i + k..i + l][n]
    {
    }
  }

  /** Stripping a slice of `raw` leaves a slice of `raw`. */
  lemma StripSlice(raw: string, i: nat, j: nat, cs: char -> bool) returns (i': nat, j': nat)
    requires i <= j <= |raw|
    ensures i <= i' <= j' <= j && Strip(raw[i..j], cs) == raw[i'..j']
  {
    var b := StripBounds(raw[i..j], cs);
    SliceOfSlice(raw, i, j, b.0, b.1);
    i', j' := i + b.0, i + b.1;
  }

  /** The sanitised path is a contiguous piece of the raw argument. */
  lemma SanitiseIsSlice(raw: string)
    ensures exists i, j :: 0 <= i <= j <= |raw| && Sanitise(raw) == raw[i..j]
  {
    var i, j := UnquotedIsSlice(raw);
    var k := |Sanitise(raw)|;
    SanitiseKeepsUnflagged(raw);
    SliceOfSlice(raw, i, j, 0, k);
    assert Sanitise(raw) == raw[i..i + k];
  }

  /** The unquoted argument is a contiguous piece of the raw argument. */
  lemma UnquotedIsSlice(raw: string) returns (i: nat, j: nat)
    ensures i <= j <= |raw| && Unquoted(raw) == raw[i..j]
  {
    assert raw == raw[0..|raw|];
    var i1, j1 := StripSlice(raw, 0, |raw|, IsSpace);
    var i2, j2 := StripSlice(raw, i1, j1, IsDoubleQuote);
    i, j := StripSlice(raw, i2, j2, IsSingleQuote);
  }

  /** Stripping leaves a string alone when neither end satisfies `cs`. */
  lemma StripUnchanged(s: string, cs: char -> bool)
    requires s != [] && !cs(s[0]) && !cs(s[|s| - 1])
    ensures Strip(s, cs) == s
  {
    assert LeadingIn(s, cs) == 0;
    assert s[0..] == s;
    assert TrailingIn(s, cs) == 0;
  }

  lemma MarkerFoundAtTwo()
    ensures Unquoted("a  --x") == "a  --x"
    ensures Find("a  --x", FlagMarker) == 2
  {
    ExampleUnquoted();
    ExampleFind();
  }

  lemma ExampleUnquoted()
    ensures Unquoted("a  --x") == "a  --x"
  {
    var s := "a  --x";
    StripUnchanged(s, IsSpace);
    StripUnchanged(s, IsDoubleQuote);
    StripUnchanged(s, IsSingleQuote);
  }

  lemma ExampleFind()
    ensures Find("a  --x", FlagMarker) == 2
  {
    var s := "a  --x";
    assert s[2..5] == FlagMarker;
    assert FindFrom(s, FlagMarker, 2) == 2;
    assert s[1..4] != FlagMarker by { assert s[1..4][1] != FlagMarker[1]; }
    assert FindFrom(s, FlagMarker, 1) == 2;
    assert s[0..3] != FlagMarker by { assert s[0..3][0] != FlagMarker[0]; }
  }


  lemma SanitiseCutsAtMarker()
    ensures Sanitise("a  --x") == "a "
  {
    var s := "a  --x";
    MarkerFoundAtTwo();
    assert OccursAt(s, FlagMarker, 2);
    assert s[..2] == "a ";
    assert Sanitise(s) == "a ";
  }

  lemma SanitiseStripsTrailingBlank()
    ensures Sanitise("a ") == "a"
  {
    var t := "a ";
    assert LeadingIn(t, IsSpace) == 0;
    assert t[0..] == t;
    assert TrailingIn(t, IsSpace) == 1;
    assert Strip(t, IsSpace) == "a";
    StripUnchanged("a", IsDoubleQuote);
    StripUnchanged("a", IsSingleQuote);
    assert Unquoted(t) == "a";
    assert !OccursAt("a", FlagMarker, 0);
  }

  /** Sanitising is not idempotent: the text left before a marker can end in
      blanks, which a second pass strips. */
  lemma SanitiseNotIdempotent()
    ensures Sanitise(Sanitise("a  --x")) != Sanitise("a  --x")
  {
    SanitiseCutsAtMarker();
    SanitiseStripsTrailingBlank();
  }

  // ---------------------------------------------------------------------
  // clean-all's confirmation

  /** `str.lower()` on one character, for the ASCII letters. */
  function LowerChar(c: char): char {
    if 'A' <= c <= 'Z' then (c as int + 32) as char else c
  }

  function Lower(s: string): (r: string)
    ensures |r| == |s|
    ensures forall k :: 0 <= k < |s| ==> r[k] == LowerChar(s[k])
  {
    if s == [] then [] else [LowerChar(s[0])] + Lower(s[1..])
  }

  /** The answer confirms when, stripped and lower-cased, it is exactly `y`. */
  predicate Confirmed(answer: string) {
    Lower(Strip(answer, IsSpace)) == "y"
  }

  /** Only a lone `y` or `Y`, blanks around it aside, confirms. */
  lemma ConfirmedIff(answer: string)
    ensures Confirmed(answer) <==> Strip(answer, IsSpace) in {"y", "Y"}
  {
    var s := Strip(answer, IsSpace);
    if |s| == 1 {
      assert Lower(s) == [LowerChar(s[0])];
      assert s == [s[0]];
    }
  }
}
