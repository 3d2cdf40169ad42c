/** The text cleaner `preprocess` of ai_integration/data_preprocessing.py.

    `preprocess` is a chain of four steps on one string:
      1. every run of whitespace becomes one space          (Collapse)
      2. every character outside `\w`, `\s` and `.,!?;:-()`
         becomes a space, one for one                       (Scrub)
      3. leading and trailing whitespace is removed         (Strip)
      4. a result over 8000 characters is cut to its first
         8000 characters followed by "..."                  (Truncate)
 */
module TextCleaning {

  /** Python's whitespace: the characters for which `str.isspace()` holds.
      The same table backs the regular-expression class of whitespace and
      Python's stripping and splitting of strings. */
  predicate IsSpace(c: char) {
    c == ' ' || c == '\t' || c == '\n' || c == '\r' || c == '\U{0B}' || c == '\U{0C}'
    || ('\U{1C}' <= c <= '\U{1F}') || c == '\U{85}' || c == '\U{A0}' || c == '\U{1680}'
    || ('\U{2000}' <= c <= '\U{200A}') || c == '\U{2028}' || c == '\U{2029}'
    || c == '\U{202F}' || c == '\U{205F}' || c == '\U{3000}'
  }

  /** The regex class `\w`, restricted to ASCII: letters, digits and underscore. */
  predicate IsWord(c: char) {
    ('a' <= c <= 'z') || ('A' <= c <= 'Z') || ('0' <= c <= '9') || c == '_'
  }

  /** The punctuation the cleaner keeps: `. , ! ? ; : - ( )`. */
  predicate IsPunct(c: char) {
    c == '.' || c == ',' || c == '!' || c == '?' || c == ';' || c == ':' || c == '-' || c == '(' || c == ')'
  }

  /** The characters the second substitution leaves alone. */
  predicate Allowed(c: char) {
    IsWord(c) || IsSpace(c) || IsPunct(c)
  }

  /** The characters a cleaned text can contain. */
  predicate Clean(c: char) {
    IsWord(c) || c == ' ' || IsPunct(c)
  }

  /** Only whitespace: the text strips to nothing. */
  predicate Blank(s: string) {
    forall i :: 0 <= i < |s| ==> IsSpace(s[i])
  }

  /** No two spaces in a row. */
  predicate NoDoubleSpace(s: string) {
    forall i :: 0 <= i < |s| - 1 ==> s[i] != ' ' || s[i + 1] != ' '
  }

  /** The non-whitespace characters of `s`, in order. */
  function NonSpaces(s: string): (r: string)
    ensures |r| <= |s|
  {
    if s == [] then [] else (if IsSpace(s[0]) then [] else [s[0]]) + NonSpaces(s[1..])
  }

  lemma {:induction false} NonSpacesAppend(a: string, b: string)
    ensures NonSpaces(a + b) == NonSpaces(a) + NonSpaces(b)
  {
    if a == [] {
      assert a + b == b;
    } else {
      assert (a + b)[1..] == a[1..] + b;
      NonSpacesAppend(a[1..], b);
    }
  }

  lemma {:induction false} NonSpacesOfSpaceFree(w: string)
    requires forall i :: 0 <= i < |w| ==> !IsSpace(w[i])
    ensures NonSpaces(w) == w
  {
    if w != [] {
      NonSpacesOfSpaceFree(w[1..]);
    }
  }

  const MaxCleanLength: nat := 8000
  const Ellipsis: string := "..."

  /** The argument of `preprocess`: Python lets any value in. */
  datatype PyValue = PyNone | PyStr(s: string) | PyOther

  /** Step 1 (line 10): each maximal whitespace run becomes one space.
      `inRun` says that the character just before `s` was whitespace of the same run. */
  function Collapse(s: string, inRun: bool): (r: string)
    ensures |r| <= |s|
    ensures forall i :: 0 <= i < |r| ==> r[i] == ' ' || !IsSpace(r[i])
  {
    if s == [] then []
    else if IsSpace(s[0]) then
      var rest := Collapse(s[1..], true);
      if inRun then rest else [' '] + rest
    else
      [s[0]] + Collapse(s[1..], false)
  }

  /** A collapsed text never holds two spaces in a row, and one collapsed
      inside a whitespace run does not start with a space. */
  lemma {:induction false} CollapseNoDoubleSpace(s: string, inRun: bool)
    ensures NoDoubleSpace(Collapse(s, inRun))
    ensures inRun && Collapse(s, inRun) != [] ==> Collapse(s, inRun)[0] != ' '
  {
    if s != [] {
      var rest := Collapse(s[1..], IsSpace(s[0]));
      CollapseNoDoubleSpace(s[1..], IsSpace(s[0]));
      var r := Collapse(s, inRun);
      if IsSpace(s[0]) && !inRun {
        assert r == [' '] + rest;
        forall i | 0 <= i < |r| - 1 ensures r[i] != ' ' || r[i + 1] != ' ' {
          if i > 0 {
            assert r[i] == rest[i - 1] && r[i + 1] == rest[i];
          }
        }
      } else if !IsSpace(s[0]) {
        assert r == [s[0]] + rest;
        forall i | 0 <= i < |r| - 1 ensures r[i] != ' ' || r[i + 1] != ' ' {
          if i > 0 {
            assert r[i] == rest[i - 1] && r[i + 1] == rest[i];
          }
        }
      }
    }
  }

  /** Collapsing touches only whitespace: the non-whitespace characters are
      kept, in order. */
  lemma {:induction false} CollapseKeepsNonSpaces(s: string, inRun: bool)
    ensures NonSpaces(Collapse(s, inRun)) == NonSpaces(s)
  {
    if s != [] {
      var rest := Collapse(s[1..], IsSpace(s[0]));
      CollapseKeepsNonSpaces(s[1..], IsSpace(s[0]));
      if IsSpace(s[0]) && !inRun {
        assert ([' '] + rest)[1..] == rest;
      } else if !IsSpace(s[0]) {
        assert ([s[0]] + rest)[1..] == rest;
      }
    }
  }

  /** The character the second substitution puts at a position holding `c`. */
  function Replacement(c: char): char {
    if Allowed(c) then c else ' '
  }

  /** Step 2 (line 13): a character outside the kept class is replaced by a
      space, never deleted. */
  function Scrub(s: string): (r: string)
    ensures |r| == |s|
    ensures forall i :: 0 <= i < |s| ==> r[i] == Replacement(s[i])
  {
    if s == [] then [] else [Replacement(s[0])] + Scrub(s[1..])
  }

  /** Where stripping on the left starts: the index of the first non-whitespace
      character, or `|s|` when there is none. */
  function StripStart(s: string): (i: nat)
    ensures i <= |s|
    ensures forall k :: 0 <= k < i ==> IsSpace(s[k])
    ensures i < |s| ==> !IsSpace(s[i])
  {
    if s != [] && IsSpace(s[0]) then 1 + StripStart(s[1..]) else 0
  }

  /** Where stripping on the right ends: one past the last non-whitespace character,
      or 0 when there is none. */
  function StripEnd(s: string): (j: nat)
    ensures j <= |s|
    ensures forall k :: j <= k < |s| ==> IsSpace(s[k])
    ensures j > 0 ==> !IsSpace(s[j - 1])
  {
    if s != [] && IsSpace(s[|s| - 1]) then StripEnd(s[..|s| - 1]) else |s|
  }

  /** Step 3 (line 16): the slice of `s` between its leading and trailing
      whitespace; empty exactly when `s` is only whitespace. */
  function Strip(s: string): (r: string)
    ensures r != [] ==> !IsSpace(r[0]) && !IsSpace(r[|r| - 1])
    ensures r == [] <==> Blank(s)
    ensures StripStart(s) + |r| <= |s| && r == s[StripStart(s)..StripStart(s) + |r|]
    ensures forall k :: 0 <= k < StripStart(s) ==> IsSpace(s[k])
    ensures forall k :: StripStart(s) + |r| <= k < |s| ==> IsSpace(s[k])
  {
    var i, j := StripStart(s), StripEnd(s);
    assert i < |s| ==> i < j;
    if i < j then s[i..j] else []
  }

  /** Steps 1 to 3: never longer than the input, and every character of the
      result is a word character, a plain space or kept punctuation. */
  function Cleaned(s: string): (r: string)
    ensures |r| <= |s|
    ensures forall k :: 0 <= k < |r| ==> Clean(r[k])
  {
    var c := Collapse(s, false);
    var x := Scrub(c);
    assert forall k :: 0 <= k < |x| ==> Clean(x[k]) by {
      forall k | 0 <= k < |x| ensures Clean(x[k]) {
        assert x[k] == Replacement(c[k]);
        assert c[k] == ' ' || !IsSpace(c[k]);
      }
    }
    SliceIsClean(x, StripStart(x), StripStart(x) + |Strip(x)|);
    Strip(x)
  }

  /** Step 4 (lines 19-20): a text over 8000 characters keeps its first 8000 and gains "...". */
  function Truncate(t: string): (r: string)
    ensures |t| <= MaxCleanLength ==> r == t
    ensures |t| > MaxCleanLength ==>
              |r| == MaxCleanLength + |Ellipsis| && r[..MaxCleanLength] == t[..MaxCleanLength] && r[MaxCleanLength..] == Ellipsis
  {
    if |t| > MaxCleanLength then t[..MaxCleanLength] + Ellipsis else t
  }

  /** The whole cleaner (lines 4-22); a missing, non-string or empty
      argument gives the empty text. */
  function Preprocess(v: PyValue): (r: string)
    ensures !v.PyStr? || v.s == "" ==> r == ""
    ensures |r| <= MaxCleanLength + |Ellipsis|
    ensures forall k :: 0 <= k < |r| ==> Clean(r[k])
    ensures forall k :: 0 <= k < |r| ==> IsSpace(r[k]) ==> r[k] == ' '
    ensures r != [] ==> !IsSpace(r[0]) && !IsSpace(r[|r| - 1])
    ensures v.PyStr? && |Cleaned(v.s)| <= MaxCleanLength ==> r == Cleaned(v.s)
    ensures v.PyStr? && |Cleaned(v.s)| > MaxCleanLength ==>
              r == Cleaned(v.s)[..MaxCleanLength] + Ellipsis && r[|r| - 1] == '.'
  {
    if v.PyStr? && v.s != "" then
      TruncateKeepsClean(Cleaned(v.s));
      Truncate(Cleaned(v.s))
    else
      assert v.PyStr? ==> Cleaned(v.s) == "" by {
        if v.PyStr? {
          assert Blank(Scrub(Collapse(v.s, false)));
        }
      }
      ""
  }

  /** A clean character that is whitespace is the plain space. */
  lemma CleanSpaceIsPlain(c: char)
    requires Clean(c)
    ensures IsSpace(c) ==> c == ' '
  {
  }

  /** Truncation keeps a stripped clean text clean and stripped. */
  lemma TruncateKeepsClean(t: string)
    requires forall k :: 0 <= k < |t| ==> Clean(t[k])
    requires t != [] ==> !IsSpace(t[0]) && !IsSpace(t[|t| - 1])
    ensures forall k :: 0 <= k < |Truncate(t)| ==> Clean(Truncate(t)[k])
    ensures forall k :: 0 <= k < |Truncate(t)| ==> IsSpace(Truncate(t)[k]) ==> Truncate(t)[k] == ' '
    ensures Truncate(t) != [] ==> !IsSpace(Truncate(t)[0]) && !IsSpace(Truncate(t)[|Truncate(t)| - 1])
  {
    var r := Truncate(t);
    if |t| > MaxCleanLength {
      forall k | 0 <= k < |r| ensures Clean(r[k]) {
        if k < MaxCleanLength {
          assert r[k] == t[k];
        } else {
          assert r[k] == Ellipsis[k - MaxCleanLength];
        }
      }
      assert r[0] == t[0];
    }
    forall k | 0 <= k < |r| ensures IsSpace(r[k]) ==> r[k] == ' ' {
      CleanSpaceIsPlain(r[k]);
    }
  }

  /** A slice of a text made of clean characters is made of clean characters. */
  lemma SliceIsClean(x: string, i: nat, j: nat)
    requires i <= j <= |x|
    requires forall k :: 0 <= k < |x| ==> Clean(x[k])
    ensures forall k :: 0 <= k < j - i ==> Clean(x[i..j][k])
  {
    forall k | 0 <= k < j - i ensures Clean(x[i..j][k]) {
      assert x[i..j][k] == x[i + k];
    }
  }

  /** A text `preprocess` leaves as it is: clean characters, no double space,
      no space at either end. */
  predicate Normalized(s: string) {
    && (forall k :: 0 <= k < |s| ==> Clean(s[k]))
    && NoDoubleSpace(s)
    && (s != [] ==> s[0] != ' ' && s[|s| - 1] != ' ')
  }

  lemma {:induction false} CollapseFixed(s: string, inRun: bool)
    requires forall k :: 0 <= k < |s| ==> IsSpace(s[k]) ==> s[k] == ' '
    requires NoDoubleSpace(s)
    requires inRun && s != [] ==> !IsSpace(s[0])
    ensures Collapse(s, inRun) == s
  {
    if s != [] {
      assert NoDoubleSpace(s[1..]) by {
        forall i | 0 <= i < |s[1..]| - 1 ensures s[1..][i] != ' ' || s[1..][i + 1] != ' ' {
          assert s[1..][i] == s[i + 1] && s[1..][i + 1] == s[i + 2];
        }
      }
      if IsSpace(s[0]) {
        assert |s| > 1 ==> s[1] != ' ';
        CollapseFixed(s[1..], true);
      } else {
        CollapseFixed(s[1..], false);
      }
      assert s == [s[0]] + s[1..];
    }
  }

  lemma {:induction false} CollapseKeepsAllowed(s: string, inRun: bool)
    requires forall k :: 0 <= k < |s| ==> Allowed(s[k])
    ensures forall k :: 0 <= k < |Collapse(s, inRun)| ==> Allowed(Collapse(s, inRun)[k])
  {
    if s != [] {
      CollapseKeepsAllowed(s[1..], IsSpace(s[0]));
    }
  }

  lemma ScrubFixed(s: string)
    requires AllAllowed(s)
    ensures Scrub(s) == s
  {
  }

  lemma SliceNoDoubleSpace(x: string, i: nat, j: nat)
    requires i <= j <= |x| && NoDoubleSpace(x)
    ensures NoDoubleSpace(x[i..j])
  {
    forall k | 0 <= k < j - i - 1 ensures x[i..j][k] != ' ' || x[i..j][k + 1] != ' ' {
      assert x[i..j][k] == x[i + k] && x[i..j][k + 1] == x[i + k + 1];
    }
  }

  /** Steps 1 to 3 leave a normalized text unchanged. */
  lemma CleanedFixed(s: string)
    requires Normalized(s)
    ensures Cleaned(s) == s
  {
    forall k | 0 <= k < |s| ensures IsSpace(s[k]) ==> s[k] == ' ' {
      CleanSpaceIsPlain(s[k]);
    }
    CollapseFixed(s, false);
    ScrubFixed(s);
    if s != [] {
      CleanSpaceIsPlain(s[0]);
      CleanSpaceIsPlain(s[|s| - 1]);
      assert StripStart(s) == 0 && StripEnd(s) == |s|;
    }
  }

  /** A normalized text of at most 8000 characters is a fixed point of `preprocess`. */
  lemma NormalizedIsFixedPoint(s: string)
    requires Normalized(s) && |s| <= MaxCleanLength
    ensures Preprocess(PyStr(s)) == s
  {
    if s != "" {
      CleanedFixed(s);
    }
  }

  /** Without replaced characters, steps 1 to 3 produce a normalized text. */
  lemma CleanedNormalized(s: string)
    requires forall k :: 0 <= k < |s| ==> Allowed(s[k])
    ensures Normalized(Cleaned(s))
  {
    var c := Collapse(s, false);
    CollapseKeepsAllowed(s, false);
    CollapseNoDoubleSpace(s, false);
    ScrubFixed(c);
    var t := Strip(c);
    SliceNoDoubleSpace(c, StripStart(c), StripStart(c) + |t|);
    assert t != [] ==> t[0] != ' ' && t[|t| - 1] != ' ';
  }

  /** A truncated normalized text is normalized and a fixed point of `preprocess`. */
  lemma TruncatedIsFixedPoint(t: string)
    requires Normalized(t) && |t| > MaxCleanLength
    ensures Normalized(Truncate(t))
    ensures Preprocess(PyStr(Truncate(t))) == Truncate(t)
  {
    var r := Truncate(t);
    assert r == t[..MaxCleanLength] + Ellipsis;
    SliceNoDoubleSpace(t, 0, MaxCleanLength);
    assert NoDoubleSpace(r) by {
      forall i | 0 <= i < |r| - 1 ensures r[i] != ' ' || r[i + 1] != ' ' {
        if i < MaxCleanLength - 1 {
          assert r[i] == t[..MaxCleanLength][i] && r[i + 1] == t[..MaxCleanLength][i + 1];
        } else {
          assert r[i + 1] == '.';
        }
      }
    }
    assert forall k :: 0 <= k < |r| ==> Clean(r[k]) by {
      forall k | 0 <= k < |r| ensures Clean(r[k]) {
        if k < MaxCleanLength {
          assert r[k] == t[k];
        } else {
          assert r[k] == '.';
        }
      }
    }
    assert r[0] == t[0];
    CleanedFixed(r);
    assert r[..MaxCleanLength] == t[..MaxCleanLength];
  }

  /** Truncating a normalized text gives a normalized fixed point of `preprocess`. */
  lemma TruncateNormalized(t: string)
    requires Normalized(t)
    ensures Normalized(Truncate(t))
    ensures Preprocess(PyStr(Truncate(t))) == Truncate(t)
  {
    if |t| <= MaxCleanLength {
      NormalizedIsFixedPoint(t);
    } else {
      TruncatedIsFixedPoint(t);
    }
  }

  /** When the input holds no character the second substitution replaces,
      `preprocess` is idempotent and its result is normalized. */
  lemma PreprocessIdempotentWithoutReplacement(s: string)
    requires forall k :: 0 <= k < |s| ==> Allowed(s[k])
    ensures Normalized(Preprocess(PyStr(s)))
    ensures Preprocess(PyStr(Preprocess(PyStr(s)))) == Preprocess(PyStr(s))
  {
    if s != "" {
      CleanedNormalized(s);
      TruncateNormalized(Cleaned(s));
      assert Preprocess(PyStr(s)) == Truncate(Cleaned(s));
    }
  }

  /** A leading word survives collapsing unchanged. */
  lemma {:induction false} CollapseWordPrefix(w: string, rest: string, inRun: bool)
    requires w != [] && SpaceFree(w)
    ensures Collapse(w + rest, inRun) == w + Collapse(rest, false)
  {
    assert (w + rest)[0] == w[0] && (w + rest)[1..] == w[1..] + rest;
    if |w| > 1 {
      CollapseWordPrefix(w[1..], rest, false);
      assert w + Collapse(rest, false) == [w[0]] + (w[1..] + Collapse(rest, false));
    } else {
      assert w[1..] + rest == rest;
      assert w + Collapse(rest, false) == [w[0]] + Collapse(rest, false);
    }
  }

  /** A leading whitespace run collapses to one space, or to nothing when it
      continues a run. */
  lemma {:induction false} CollapseSpacePrefix(sp: string, rest: string, inRun: bool)
    requires sp != [] && Blank(sp)
    ensures Collapse(sp + rest, inRun) == (if inRun then [] else [' ']) + Collapse(rest, true)
  {
    assert (sp + rest)[0] == sp[0] && (sp + rest)[1..] == sp[1..] + rest;
    if |sp| > 1 {
      CollapseSpacePrefix(sp[1..], rest, true);
    } else {
      assert sp[1..] + rest == rest;
    }
  }

  lemma CleanedAtAtExample()
    ensures Cleaned("a@@b") == "a  b"
  {
    assert Collapse("a@@b", false) == "a@@b" by {
      CollapseWordPrefix("a@@b", "", false);
    }
    assert Scrub("a@@b") == "a  b";
    assert StripStart("a  b") == 0 && StripEnd("a  b") == 4;
  }

  lemma CleanedDoubleSpaceExample()
    ensures Cleaned("a  b") == "a b"
  {
    assert Collapse("a  b", false) == "a b" by {
      assert "a  b" == "a" + ("  " + "b");
      CollapseWordPrefix("a", "  " + "b", false);
      CollapseSpacePrefix("  ", "b", false);
      CollapseWordPrefix("b", "", true);
    }
    assert Scrub("a b") == "a b";
    assert StripStart("a b") == 0 && StripEnd("a b") == 3;
  }

  /** Replacement happens after collapsing, so two adjacent replaced characters
      leave a double space, which a second pass collapses: `preprocess` is not
      idempotent in general. */
  lemma NotIdempotent()
    ensures Preprocess(PyStr("a@@b")) == "a  b"
    ensures Preprocess(PyStr("a  b")) == "a b"
  {
    CleanedAtAtExample();
    CleanedDoubleSpaceExample();
  }

  /** A word followed by a whitespace run collapses to the word and one space. */
  lemma CollapseWordThenRun(w: string, sp: string, rest: string, inRun: bool)
    requires w != [] && SpaceFree(w)
    requires sp != [] && Blank(sp)
    ensures Collapse(w + (sp + rest), inRun) == w + (" " + Collapse(rest, true))
  {
    CollapseWordPrefix(w, sp + rest, inRun);
    CollapseSpacePrefix(sp, rest, false);
  }

  /** The shape of the worked example: leading whitespace, then four words
      each followed by a whitespace run. */
  lemma CollapseFourWords(s0: string, w1: string, s1: string, w2: string, s2: string,
                          w3: string, s3: string, w4: string, s4: string)
    requires s0 != [] && Blank(s0) && s1 != [] && Blank(s1) && s2 != [] && Blank(s2)
    requires s3 != [] && Blank(s3) && s4 != [] && Blank(s4)
    requires w1 != [] && SpaceFree(w1) && w2 != [] && SpaceFree(w2)
    requires w3 != [] && SpaceFree(w3) && w4 != [] && SpaceFree(w4)
    ensures Collapse(s0 + (w1 + (s1 + (w2 + (s2 + (w3 + (s3 + (w4 + s4))))))), false)
         == " " + (w1 + (" " + (w2 + (" " + (w3 + (" " + (w4 + " ")))))))
  {
    var t4 := w4 + s4;
    var t3 := w3 + (s3 + t4);
    var t2 := w2 + (s2 + t3);
    var t1 := w1 + (s1 + t2);
    var r4 := w4 + " ";
    var r3 := w3 + (" " + r4);
    var r2 := w2 + (" " + r3);
    var r1 := w1 + (" " + r2);
    assert Collapse(t4, true) == r4 by {
      assert s4 == s4 + [];
      CollapseSpacePrefix(s4, [], true);
      CollapseWordThenRun(w4, s4, [], true);
    }
    assert Collapse(t3, true) == r3 by {
      CollapseWordThenRun(w3, s3, t4, true);
    }
    assert Collapse(t2, true) == r2 by {
      CollapseWordThenRun(w2, s2, t3, true);
    }
    assert Collapse(t1, true) == r1 by {
      CollapseWordThenRun(w1, s1, t2, true);
    }
    CollapseSpacePrefix(s0, t1, false);
  }

  /** Stripping one space from each end of a text that has no whitespace
      at its ends gives the text back. */
  lemma StripPadded(t: string)
    requires t != [] && !IsSpace(t[0]) && !IsSpace(t[|t| - 1])
    ensures Strip([' '] + t + [' ']) == t
  {
    var c := [' '] + t + [' '];
    assert c[1] == t[0] && c[|c| - 2] == t[|t| - 1];
    assert StripStart(c[1..]) == 0;
    assert StripStart(c) == 1;
    assert StripEnd(c[..|c| - 1]) == |c| - 1;
    assert StripEnd(c) == |c| - 1;
    assert c[1..|c| - 1] == t;
  }

  /** No whitespace at all. */
  predicate SpaceFree(w: string) {
    forall k :: 0 <= k < |w| ==> !IsSpace(w[k])
  }

  /** Nothing the second substitution would replace. */
  predicate AllAllowed(w: string) {
    forall k :: 0 <= k < |w| ==> Allowed(w[k])
  }

  lemma AllAllowedAppend(a: string, b: string)
    requires AllAllowed(a) && AllAllowed(b)
    ensures AllAllowed(a + b)
  {
    forall k | 0 <= k < |a + b| ensures Allowed((a + b)[k]) {
      if k < |a| {
        assert (a + b)[k] == a[k];
      } else {
        assert (a + b)[k] == b[k - |a|];
      }
    }
  }

  lemma FourWordsAllowed(w1: string, w2: string, w3: string, w4: string)
    requires AllAllowed(w1) && AllAllowed(w2) && AllAllowed(w3) && AllAllowed(w4)
    ensures AllAllowed(w1 + (" " + (w2 + (" " + (w3 + (" " + w4))))))
  {
    assert AllAllowed(" ");
    AllAllowedAppend(" ", w4);
    AllAllowedAppend(w3, " " + w4);
    AllAllowedAppend(" ", w3 + (" " + w4));
    AllAllowedAppend(w2, " " + (w3 + (" " + w4)));
    AllAllowedAppend(" ", w2 + (" " + (w3 + (" " + w4))));
    AllAllowedAppend(w1, " " + (w2 + (" " + (w3 + (" " + w4)))));
  }

  /** A text that step 1 turns into a kept text padded with one space on
      each side cleans to that text. */
  lemma CleanedOfPadded(s: string, t: string)
    requires t != [] && !IsSpace(t[0]) && !IsSpace(t[|t| - 1]) && AllAllowed(t)
    requires Collapse(s, false) == [' '] + t + [' ']
    ensures Cleaned(s) == t
  {
    var c := [' '] + t + [' '];
    assert AllAllowed([' ']);
    AllAllowedAppend([' '], t);
    AllAllowedAppend([' '] + t, [' ']);
    ScrubFixed(c);
    StripPadded(t);
  }

  /** The shape of the worked example: four words of kept, non-whitespace
      characters separated and surrounded by whitespace runs come out as the
      four words joined by single spaces. */
  lemma PreprocessFourWords(s0: string, w1: string, s1: string, w2: string, s2: string,
                            w3: string, s3: string, w4: string, s4: string)
    requires s0 != [] && Blank(s0) && s1 != [] && Blank(s1) && s2 != [] && Blank(s2)
    requires s3 != [] && Blank(s3) && s4 != [] && Blank(s4)
    requires w1 != [] && SpaceFree(w1) && AllAllowed(w1)
    requires w2 != [] && SpaceFree(w2) && AllAllowed(w2)
    requires w3 != [] && SpaceFree(w3) && AllAllowed(w3)
    requires w4 != [] && SpaceFree(w4) && AllAllowed(w4)
    requires |w1| + |w2| + |w3| + |w4| + 3 <= MaxCleanLength
    ensures Preprocess(PyStr(s0 + (w1 + (s1 + (w2 + (s2 + (w3 + (s3 + (w4 + s4)))))))))
         == w1 + (" " + (w2 + (" " + (w3 + (" " + w4)))))
  {
    var s := s0 + (w1 + (s1 + (w2 + (s2 + (w3 + (s3 + (w4 + s4)))))));
    var t := w1 + (" " + (w2 + (" " + (w3 + (" " + w4)))));
    FourWordsCleaned(s0, w1, s1, w2, s2, w3, s3, w4, s4);
    assert s != [] && |t| <= MaxCleanLength;
    PreprocessShortCleaned(s);
  }

  /** Steps 1 to 3 on the shape of the worked example. */
  lemma FourWordsCleaned(s0: string, w1: string, s1: string, w2: string, s2: string,
                         w3: string, s3: string, w4: string, s4: string)
    requires s0 != [] && Blank(s0) && s1 != [] && Blank(s1) && s2 != [] && Blank(s2)
    requires s3 != [] && Blank(s3) && s4 != [] && Blank(s4)
    requires w1 != [] && SpaceFree(w1) && AllAllowed(w1)
    requires w2 != [] && SpaceFree(w2) && AllAllowed(w2)
    requires w3 != [] && SpaceFree(w3) && AllAllowed(w3)
    requires w4 != [] && SpaceFree(w4) && AllAllowed(w4)
    ensures Cleaned(s0 + (w1 + (s1 + (w2 + (s2 + (w3 + (s3 + (w4 + s4))))))))
         == w1 + (" " + (w2 + (" " + (w3 + (" " + w4)))))
  {
    var s := s0 + (w1 + (s1 + (w2 + (s2 + (w3 + (s3 + (w4 + s4)))))));
    var t := w1 + (" " + (w2 + (" " + (w3 + (" " + w4)))));
    CollapseFourWords(s0, w1, s1, w2, s2, w3, s3, w4, s4);
    assert " " + (w1 + (" " + (w2 + (" " + (w3 + (" " + (w4 + " "))))))) == [' '] + t + [' '];
    FourWordsAllowed(w1, w2, w3, w4);
    assert t[0] == w1[0] && t[|t| - 1] == w4[|w4| - 1];
    CleanedOfPadded(s, t);
  }

  /** A non-empty text whose cleaned form fits is returned cleaned and untruncated. */
  lemma PreprocessShortCleaned(s: string)
    requires s != [] && |Cleaned(s)| <= MaxCleanLength
    ensures Preprocess(PyStr(s)) == Cleaned(s)
  {
  }

  lemma WorkedExampleWords()
    ensures Blank("  ") && Blank(" ") && Blank("   ")
    ensures SpaceFree("The") && AllAllowed("The") && SpaceFree("sky") && AllAllowed("sky")
    ensures SpaceFree("is") && AllAllowed("is") && SpaceFree("blue!!!") && AllAllowed("blue!!!")
  {
  }

  /** The worked example: whitespace runs collapse, the ends are stripped and
      the exclamation marks, being allowed punctuation, are kept. */
  lemma WorkedExample()
    ensures Preprocess(PyStr("  The sky   is blue!!! ")) == "The sky is blue!!!"
  {
    var s, t := "  The sky   is blue!!! ", "The sky is blue!!!";
    assert s == "  " + ("The" + (" " + ("sky" + ("   " + ("is" + (" " + ("blue!!!" + " ")))))));
    assert t == "The" + (" " + ("sky" + (" " + ("is" + (" " + "blue!!!")))));
    WorkedExampleWords();
    PreprocessFourWords("  ", "The", " ", "sky", "   ", "is", " ", "blue!!!", " ");
  }
}
