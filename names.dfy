/** Column-name normalisation of the standardize stage
    (`.str.strip().str.lower().str.replace(' ', '_').str.replace(r'[^\w\s]', '')`),
    the whitespace trimming of text cells, and the name test of the optimize stage.
    Character classes follow Python 3 `str` semantics: whitespace exactly as
    `str.isspace`, word characters and lower-casing exactly on U+0000..U+00FF. */
module Names {
  import opened Seqs

  /** Python's `str.isspace`: what `strip()` removes and what `\s` matches. */
  predicate IsSpace(c: char) {
    || ('\t' <= c <= '\r') || ('\U{1C}' <= c <= '\U{1F}') || c == ' '
    || c == '\U{85}' || c == '\U{A0}' || c == '\U{1680}' || ('\U{2000}' <= c <= '\U{200A}')
    || c == '\U{2028}' || c == '\U{2029}' || c == '\U{202F}' || c == '\U{205F}' || c == '\U{3000}'
  }

  /** `\w` of a Python `str` pattern (alphanumeric or `_`), on U+0000..U+00FF. */
  predicate IsWord(c: char) {
    || ('0' <= c <= '9') || ('A' <= c <= 'Z') || ('a' <= c <= 'z') || c == '_'
    || c == '\U{AA}' || c == '\U{B2}' || c == '\U{B3}' || c == '\U{B5}' || c == '\U{B9}' || c == '\U{BA}'
    || ('\U{BC}' <= c <= '\U{BE}') || ('\U{C0}' <= c <= '\U{D6}') || ('\U{D8}' <= c <= '\U{F6}')
    || ('\U{F8}' <= c <= '\U{FF}')
  }

  /** Characters that the regular expression `[^\w\s]` leaves in place. */
  predicate KeptInName(c: char) {
    IsWord(c) || IsSpace(c)
  }

  predicate IsUpper(c: char) {
    ('A' <= c <= 'Z') || ('\U{C0}' <= c <= '\U{D6}') || ('\U{D8}' <= c <= '\U{DE}')
  }

  /** `str.lower()` on one character. */
  function LowerChar(c: char): char {
    if IsUpper(c) then (c as int + 32) as char else c
  }

  /** Lower-casing leaves no upper-case letter and keeps the character class. */
  lemma LowerCharFacts(c: char)
    ensures !IsUpper(LowerChar(c))
    ensures IsWord(LowerChar(c)) == IsWord(c) && IsSpace(LowerChar(c)) == IsSpace(c)
  {
  }

  /** `str.lower()`: no upper-case letter is left, every character keeps its word and
      whitespace class, and a character that is not upper case stays as it is. */
  function Lower(s: string): (r: string)
    ensures |r| == |s|
    ensures forall i :: 0 <= i < |s| ==> r[i] == LowerChar(s[i])
    ensures forall i :: 0 <= i < |r| ==> !IsUpper(r[i]) && IsWord(r[i]) == IsWord(s[i]) && IsSpace(r[i]) == IsSpace(s[i])
    ensures forall i :: 0 <= i < |s| && !IsUpper(s[i]) ==> r[i] == s[i]
  {
    var r := seq(|s|, i requires 0 <= i < |s| => LowerChar(s[i]));
    forall i | 0 <= i < |r|
      ensures !IsUpper(r[i]) && IsWord(r[i]) == IsWord(s[i]) && IsSpace(r[i]) == IsSpace(s[i])
    {
      LowerCharFacts(s[i]);
    }
    r
  }

  /** No whitespace at either end. */
  predicate Trimmed(s: string) {
    s == [] || (!IsSpace(s[0]) && !IsSpace(s[|s| - 1]))
  }

  predicate AllSpace(s: string) {
    forall i :: 0 <= i < |s| ==> IsSpace(s[i])
  }

  /** `s` without its leading whitespace: a suffix of `s`, after whitespace only. */
  function StripLeading(s: string): (r: string)
    ensures |r| <= |s| && r == s[|s| - |r|..] && AllSpace(s[..|s| - |r|])
    ensures r == [] || !IsSpace(r[0])
  {
    if s != [] && IsSpace(s[0]) then
      var r := StripLeading(s[1..]);
      assert s[..|s| - |r|] == [s[0]] + s[1..][..|s| - 1 - |r|];
      r
    else s
  }

  /** `s` without its trailing whitespace: a prefix of `s`, before whitespace only. */
  function StripTrailing(s: string): (r: string)
    ensures |r| <= |s| && r == s[..|r|] && AllSpace(s[|r|..])
    ensures r == [] || !IsSpace(r[|r| - 1])
  {
    if s != [] && IsSpace(s[|s| - 1]) then
      var r := StripTrailing(s[..|s| - 1]);
      assert s[|r|..] == s[..|s| - 1][|r|..] + [s[|s| - 1]];
      r
    else s
  }

  /** Python's `str.strip()`: `s` without its leading and trailing whitespace. */
  function Strip(s: string): (r: string)
    ensures Trimmed(r)
    ensures Trimmed(s) ==> r == s
    ensures exists a, b :: 0 <= a <= b <= |s| && r == s[a..b] && AllSpace(s[..a]) && AllSpace(s[b..])
  {
    var t := StripLeading(s);
    var r := StripTrailing(t);
    assert r != [] ==> r[0] == t[0];
    assert Trimmed(s) && s != [] ==> t == s && r == t;
    var a := |s| - |t|;
    var b := a + |r|;
    assert r == s[a..b];
    assert s[b..] == t[|r|..];
    r
  }

  function ReplaceSpaces(s: string): (r: string)
    ensures |r| == |s| && ' ' !in r
    ensures forall i :: 0 <= i < |s| ==> r[i] == if s[i] == ' ' then '_' else s[i]
  {
    seq(|s|, i requires 0 <= i < |s| => if s[i] == ' ' then '_' else s[i])
  }

  /** The column-name chain of the standardize stage, step by step. A normalised
      name has no plain space, and only word characters and whitespace. */
  function Normalize(name: string): (r: string)
    ensures |r| <= |name|
    ensures ' ' !in r
    ensures forall i :: 0 <= i < |r| ==> KeptInName(r[i])
  {
    var t := ReplaceSpaces(Lower(Strip(name)));
    FilterPasses(t, KeptInName);
    Filter(t, KeptInName)
  }

  /** The only whitespace in `name`, if any, is the plain space. */
  predicate OnlyPlainSpaces(name: string) {
    forall i :: 0 <= i < |name| && IsSpace(name[i]) ==> name[i] == ' '
  }

  /** Word characters only, already lower-case. */
  predicate NormalForm(s: string) {
    forall i :: 0 <= i < |s| ==> IsWord(s[i]) && !IsUpper(s[i])
  }

  lemma StripOfTrimmed(s: string)
    requires Trimmed(s)
    ensures Strip(s) == s
  {
  }

  lemma WordIsNotSpace(c: char)
    requires IsWord(c)
    ensures !IsSpace(c) && c != ' '
  {
  }

  /** Lower-casing leaves a string without upper-case letters as it is. */
  lemma LowerFixesLowerCase(m: string)
    requires forall i :: 0 <= i < |m| ==> !IsUpper(m[i])
    ensures Lower(m) == m
  {
  }

  /** A name in normal form is left as it is by the chain. */
  lemma NormalizeFixesNormalForm(m: string)
    requires NormalForm(m)
    ensures Normalize(m) == m
  {
    NormalFormFixesEachStep(m);
    NormalFormKeepsItsCharacters(m);
    NormalizeOfFixedSteps(m);
  }

  /** Stripping, lower-casing and replacing spaces each leave a name in normal form as it is. */
  lemma NormalFormFixesEachStep(m: string)
    requires NormalForm(m)
    ensures Strip(m) == m && Lower(m) == m && ReplaceSpaces(m) == m
  {
    NormalFormHasNoSpace(m);
    StripOfTrimmed(m);
    LowerFixesLowerCase(m);
    ReplaceSpacesFixes(m);
  }

  /** Every character of a name in normal form survives the character filter. */
  lemma NormalFormKeepsItsCharacters(m: string)
    requires NormalForm(m)
    ensures Filter(m, KeptInName) == m
  {
    forall i | 0 <= i < |m| ensures KeptInName(m[i]) { }
    FilterKeepsAll(m, KeptInName);
  }

  lemma NormalFormHasNoSpace(m: string)
    requires NormalForm(m)
    ensures Trimmed(m) && ' ' !in m
  {
    forall i | 0 <= i < |m| ensures !IsSpace(m[i]) {
      WordIsNotSpace(m[i]);
    }
  }

  lemma ReplaceSpacesFixes(m: string)
    requires ' ' !in m
    ensures ReplaceSpaces(m) == m
  {
  }

  lemma NormalizeOfFixedSteps(m: string)
    requires Strip(m) == m && Lower(m) == m && ReplaceSpaces(m) == m && Filter(m, KeptInName) == m
    ensures Normalize(m) == m
  {
  }

  lemma StripKeepsOnlyPlainSpaces(name: string)
    requires OnlyPlainSpaces(name)
    ensures OnlyPlainSpaces(Strip(name))
  {
    var t := StripLeading(name);
    OnlyPlainSpacesSlice(name, |name| - |t|, |name|);
    OnlyPlainSpacesSlice(t, 0, |StripTrailing(t)|);
  }

  /** A slice of a name whose only whitespace is the plain space has no other whitespace either. */
  lemma OnlyPlainSpacesSlice(s: string, a: nat, b: nat)
    requires OnlyPlainSpaces(s) && a <= b <= |s|
    ensures OnlyPlainSpaces(s[a..b])
  {
    forall k | 0 <= k < b - a && IsSpace(s[a..b][k]) ensures s[a..b][k] == ' ' {
      assert s[a..b][k] == s[a + k];
    }
  }

  /** After lower-casing and replacing plain spaces, no whitespace and no upper case is left. */
  lemma LowerReplaceClearsSpaces(s: string)
    requires OnlyPlainSpaces(s)
    ensures forall k :: 0 <= k < |s| ==> !IsSpace(ReplaceSpaces(Lower(s))[k]) && !IsUpper(ReplaceSpaces(Lower(s))[k])
  {
    forall k | 0 <= k < |s|
      ensures !IsSpace(ReplaceSpaces(Lower(s))[k]) && !IsUpper(ReplaceSpaces(Lower(s))[k])
    {
      LowerCharFacts(s[k]);
    }
  }

  /** When a name's only whitespace is the plain space, the chain yields a normal form. */
  lemma NormalizeReachesNormalForm(name: string)
    requires OnlyPlainSpaces(name)
    ensures NormalForm(Normalize(name))
  {
    StripKeepsOnlyPlainSpaces(name);
    var s := Strip(name);
    var t := ReplaceSpaces(Lower(s));
    LowerReplaceClearsSpaces(s);
    var r := Normalize(name);
    forall k | 0 <= k < |r| ensures IsWord(r[k]) && !IsUpper(r[k]) {
      assert r[k] in t;
    }
  }

  /** Running the chain twice gives the same names as running it once, for names
      whose only whitespace is the plain space. */
  lemma NormalizeIdempotent(name: string)
    requires OnlyPlainSpaces(name)
    ensures Normalize(Normalize(name)) == Normalize(name)
  {
    NormalizeReachesNormalForm(name);
    NormalizeFixesNormalForm(Normalize(name));
  }

  /** Whitespace other than the plain space survives the chain, and dropping a
      punctuation mark can leave it at the end of the name (`"a\t!"` gives `"a\t"`). */
  lemma NormalizeKeepsOtherWhitespace(w: char, c: char, x: char)
    requires IsWord(w) && !IsUpper(w) && IsSpace(c) && c != ' ' && !KeptInName(x)
    ensures Normalize([w, c, x]) == [w, c]
  {
    OtherWhitespaceChars(w, c, x);
    var n := [w, c, x];
    assert Trimmed(n) && ' ' !in n;
    assert forall i :: 0 <= i < |n| ==> !IsUpper(n[i]);
    NormalizeOfClean(n);
    FilterOfThree(w, c, x);
  }

  /** On a trimmed name without upper case or plain spaces the chain only drops
      punctuation. */
  lemma NormalizeOfClean(m: string)
    requires Trimmed(m) && ' ' !in m
    requires forall i :: 0 <= i < |m| ==> !IsUpper(m[i])
    ensures Normalize(m) == Filter(m, KeptInName)
  {
    StripOfTrimmed(m);
    LowerFixesLowerCase(m);
    ReplaceSpacesFixes(m);
  }

  lemma OtherWhitespaceChars(w: char, c: char, x: char)
    requires IsWord(w) && IsSpace(c) && c != ' ' && !KeptInName(x)
    ensures !IsSpace(w) && w != ' ' && !IsUpper(c) && !IsUpper(x) && !IsSpace(x) && x != ' '
  {
  }

  lemma FilterOfThree(w: char, c: char, x: char)
    requires KeptInName(w) && KeptInName(c) && !KeptInName(x)
    ensures Filter([w, c, x], KeptInName) == [w, c]
  {
    assert [w, c, x] == [w, c] + [x];
    FilterAppendOne([w, c], x, KeptInName);
    assert [w, c] == [w] + [c];
    FilterAppendOne([w], c, KeptInName);
    assert [w] == [] + [w];
    FilterAppendOne([], w, KeptInName);
  }

  /** A second run then strips that whitespace (`"a\t"` gives `"a"`). */
  lemma NormalizeStripsExposedWhitespace(w: char, c: char)
    requires IsWord(w) && !IsUpper(w) && IsSpace(c)
    ensures Normalize([w, c]) == [w]
  {
    var n := [w, c];
    WordIsNotSpace(w);
    assert StripLeading(n) == n;
    assert StripTrailing(n) == [w] by {
      assert n[..1] == [w];
    }
    assert Strip(n) == [w];
    NormalizeFixesNormalForm([w]);
  }

  /** So the chain is not idempotent on every name: `"a\t!"` becomes `"a\t"`, then `"a"`. */
  lemma NormalizeNotIdempotent(w: char, c: char, x: char)
    requires IsWord(w) && !IsUpper(w) && IsSpace(c) && c != ' ' && !KeptInName(x)
    ensures Normalize(Normalize([w, c, x])) != Normalize([w, c, x])
  {
    NormalizeKeepsOtherWhitespace(w, c, x);
    NormalizeStripsExposedWhitespace(w, c);
  }

  /** Lower-casing twice is lower-casing once. */
  lemma LowerIdempotent(s: string)
    ensures Lower(Lower(s)) == Lower(s)
  {
    forall i | 0 <= i < |s| ensures !IsUpper(Lower(s)[i]) {
      LowerCharFacts(s[i]);
    }
    LowerFixesLowerCase(Lower(s));
  }

  /** Python's `sub in s` for strings. */
  predicate Contains(s: string, sub: string) {
    exists i :: 0 <= i <= |s| && sub <= s[i..]
  }

  /** The optimize stage tries to parse a column as dates when this holds of its name. */
  predicate IsTemporalName(name: string) {
    Contains(Lower(name), "fecha") || Contains(Lower(name), "date")
  }

  /** The name test ignores case: a name and its lower-cased form are tested alike,
      so `"Fecha Registro"` and `"ORDER_DATE"` are date-named. */
  lemma TemporalNameIgnoresCase(name: string)
    ensures IsTemporalName(Lower(name)) == IsTemporalName(name)
  {
    LowerIdempotent(name);
  }

  /** A name holding `date` or `fecha`, in any case, at some position is date-named. */
  lemma TemporalNameAt(name: string, i: nat, word: string)
    requires word == "date" || word == "fecha"
    requires i + |word| <= |name| && Lower(name[i..i + |word|]) == word
    ensures IsTemporalName(name)
  {
    var low := Lower(name);
    assert low[i..i + |word|] == Lower(name[i..i + |word|]);
    assert word <= low[i..];
  }
}
