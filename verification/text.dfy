/** String helpers shared by the entry-table model: suffixes, base names and
    the character classes that JavaScript regular expressions care about. */
module Text {

  /** True when `s` ends with `suffix`. */
  predicate EndsWith(s: string, suffix: string) {
    |suffix| <= |s| && s[|s| - |suffix|..] == suffix
  }

  /** True when no two positions of `s` hold the same element. */
  predicate Distinct<T(==)>(s: seq<T>) {
    forall i, j :: 0 <= i < j < |s| ==> s[i] != s[j]
  }

  /** Concatenation is associative. */
  lemma AppendAssoc<T>(a: seq<T>, b: seq<T>, c: seq<T>)
    ensures a + (b + c) == (a + b) + c
  {
  }

  /** The line terminators of ECMAScript; a regular-expression `.` matches any
      character but these. */
  predicate IsLineTerminator(c: char) {
    c == '\n' || c == '\r' || c == '\U{2028}' || c == '\U{2029}'
  }

  /** The base name of a relative path: everything after its last '/'.
      The three ensures pin it down as the longest '/'-free suffix. */
  function LastSegment(s: string): (r: string)
    ensures '/' !in r
    ensures EndsWith(s, r)
    ensures |r| < |s| ==> s[|s| - |r| - 1] == '/'
  {
    if s == [] || s[|s| - 1] == '/' then []
    else
      var init := s[..|s| - 1];
      var r' := LastSegment(init);
      assert s == init + [s[|s| - 1]];
      assert s[|s| - |r'| - 1..] == init[|init| - |r'|..] + [s[|s| - 1]];
      r' + [s[|s| - 1]]
  }

  /** Appending '/'-free text to a path extends its base name by that text. */
  lemma {:induction false} LastSegmentAppend(s: string, t: string)
    requires '/' !in t
    ensures LastSegment(s + t) == LastSegment(s) + t
    decreases |t|
  {
    if t == [] {
      assert s + t == s;
    } else {
      var t' := t[..|t| - 1];
      var c := t[|t| - 1];
      assert t == t' + [c];
      assert c in t;
      assert s + t == (s + t') + [c];
      assert (s + t)[..|s + t| - 1] == s + t';
      LastSegmentAppend(s, t');
    }
  }

  /** A name cannot end in two different dotted extensions when the extensions
      themselves hold no dot: `.scss` and `.css` never both match. */
  lemma DottedSuffixUnique(s: string, e1: string, e2: string)
    requires '.' !in e1 && '.' !in e2
    ensures EndsWith(s, "." + e1) && EndsWith(s, "." + e2) ==> e1 == e2
  {
    if !(EndsWith(s, "." + e1) && EndsWith(s, "." + e2)) {
    } else if |e1| < |e2| {
      DotInsideLonger(s, e1, e2);
    } else if |e2| < |e1| {
      DotInsideLonger(s, e2, e1);
    } else {
      assert e1 == s[|s| - |e1|..] == e2;
    }
  }

  /** The dot in front of the shorter extension falls inside the longer one. */
  lemma DotInsideLonger(s: string, short: string, long: string)
    requires |short| < |long|
    requires EndsWith(s, "." + short) && EndsWith(s, "." + long)
    ensures '.' in long
  {
    var i := |s| - |short| - 1;
    assert s[i] == ("." + short)[0] == '.';
    var k := i - (|s| - |long|);
    assert 0 <= k < |long|;
    assert long[k] == ("." + long)[k + 1] == s[i];
  }
}
