/** The three Python string operations the program relies on: `str.split(sep)` with a
    one-character separator, `sep.join(parts)` and `str.strip()`. */
module PyStr {

  /** The characters for which Python's `str.isspace()` holds, i.e. those `str.strip()`
      removes when called without arguments. */
  predicate IsSpace(c: char) {
    || ('\t' <= c <= '\r')
    || ('\U{1C}' <= c <= ' ')
    || c == '\U{85}' || c == '\U{A0}' || c == '\U{1680}'
    || ('\U{2000}' <= c <= '\U{200A}')
    || c == '\U{2028}' || c == '\U{2029}' || c == '\U{202F}' || c == '\U{205F}' || c == '\U{3000}'
  }

  /** Neither the first nor the last character is white space. */
  predicate Stripped(s: string) {
    |s| == 0 || (!IsSpace(s[0]) && !IsSpace(s[|s| - 1]))
  }

  predicate AllSpace(s: string) {
    forall k :: 0 <= k < |s| ==> IsSpace(s[k])
  }

  /** The characters of `s` from the `i`-th up to the `j`-th are all white space. */
  predicate SpaceBetween(s: string, i: nat, j: nat)
    requires i <= j <= |s|
  {
    forall k :: i <= k < j ==> IsSpace(s[k])
  }

  /** The end of the run of white space that starts at `i`. */
  function SkipSpace(s: string, i: nat): (n: nat)
    requires i <= |s|
    ensures i <= n <= |s| && SpaceBetween(s, i, n)
    ensures n < |s| ==> !IsSpace(s[n])
    decreases |s| - i
  {
    if i < |s| && IsSpace(s[i]) then SkipSpace(s, i + 1) else i
  }

  /** The start of the run of white space that ends at `j`, going back no further than `i`. */
  function SkipSpaceBack(s: string, i: nat, j: nat): (n: nat)
    requires i <= j <= |s|
    ensures i <= n <= j && SpaceBetween(s, n, j)
    ensures n > i ==> !IsSpace(s[n - 1])
    decreases j
  {
    if j > i && IsSpace(s[j - 1]) then SkipSpaceBack(s, i, j - 1) else j
  }

  /** `r` is a slice of `s` with nothing but white space before and after it. */
  ghost predicate SpaceAround(s: string, r: string) {
    exists i, j :: 0 <= i <= j <= |s| && r == s[i..j] && SpaceBetween(s, 0, i) && SpaceBetween(s, j, |s|)
  }

  /** Python's `s.strip()`: `s` without its leading and trailing white space. */
  function Strip(s: string): (r: string)
    ensures Stripped(r) && SpaceAround(s, r)
    ensures Stripped(s) ==> r == s
    ensures |r| == 0 <==> AllSpace(s)
    ensures forall c :: c in r ==> c in s
  {
    var i := SkipSpace(s, 0);
    var j := SkipSpaceBack(s, i, |s|);
    assert i < j ==> s[i..j][0] == s[i] && s[i..j][j - i - 1] == s[j - 1];
    assert Stripped(s) && |s| > 0 ==> i == 0 && j == |s|;
    assert i == j ==> AllSpace(s);
    assert forall c :: c in s[i..j] ==> c in s;
    s[i..j]
  }

  /** `strip()` gives the one string that neither starts nor ends with white space and
      sits in `s` with only white space around it. */
  lemma StripUnique(s: string, x: string)
    requires Stripped(x) && SpaceAround(s, x)
    ensures Strip(s) == x
  {
    var i, j :| 0 <= i <= j <= |s| && x == s[i..j] && SpaceBetween(s, 0, i) && SpaceBetween(s, j, |s|);
    var r := Strip(s);
    var i', j' :| 0 <= i' <= j' <= |s| && r == s[i'..j'] && SpaceBetween(s, 0, i') && SpaceBetween(s, j', |s|);
    if i == j {
      assert AllSpace(s);
    } else {
      StrippedEnds(s, i, j);
      assert !AllSpace(s);
      StrippedEnds(s, i', j');
      SameTrimmedSlice(s, i, j, i', j');
    }
  }

  /** White space on either side of a stripped string is what `strip()` removes. */
  lemma StripSpaced(a: string, x: string, b: string)
    requires AllSpace(a) && Stripped(x) && AllSpace(b)
    ensures Strip(a + x + b) == x
  {
    var s := a + x + b;
    assert s[|a|..|a| + |x|] == x;
    assert SpaceBetween(s, 0, |a|) by {
      forall k | 0 <= k < |a| ensures IsSpace(s[k]) {
        assert s[k] == a[k];
      }
    }
    assert SpaceBetween(s, |a| + |x|, |s|) by {
      forall k | |a| + |x| <= k < |s| ensures IsSpace(s[k]) {
        assert s[k] == b[k - |a| - |x|];
      }
    }
    StripUnique(s, x);
  }

  lemma StrippedEnds(s: string, i: nat, j: nat)
    requires i <= j <= |s| && Stripped(s[i..j])
    ensures i < j ==> !IsSpace(s[i]) && !IsSpace(s[j - 1])
  {
    if i < j {
      var x := s[i..j];
      assert x[0] == s[i] && x[|x| - 1] == s[j - 1];
    }
  }

  /** Two slices that start and end with a character other than white space and have
      only white space around them are the same slice. */
  lemma SameTrimmedSlice(s: string, i: nat, j: nat, i': nat, j': nat)
    requires i < j <= |s| && !IsSpace(s[i]) && !IsSpace(s[j - 1]) && SpaceBetween(s, 0, i) && SpaceBetween(s, j, |s|)
    requires i' < j' <= |s| && !IsSpace(s[i']) && !IsSpace(s[j' - 1]) && SpaceBetween(s, 0, i') && SpaceBetween(s, j', |s|)
    ensures i == i' && j == j'
  {
  }

  /** Python's `s.split(sep)` for a one-character separator: the maximal runs of
      characters between separators, including empty ones; `"".split(sep) == [""]`. */
  function Split(s: string, sep: char): (parts: seq<string>)
    ensures |parts| >= 1
    ensures forall k :: 0 <= k < |parts| ==> sep !in parts[k]
    ensures forall k, c :: 0 <= k < |parts| && c in parts[k] ==> c in s
  {
    if |s| == 0 then [""]
    else
      var rest := Split(s[1..], sep);
      assert forall c :: c in s[1..] ==> c in s;
      if s[0] == sep then [""] + rest
      else [[s[0]] + rest[0]] + rest[1..]
  }

  /** Python's `sep.join(parts)`. */
  function Join(parts: seq<string>, sep: char): string {
    if |parts| == 0 then ""
    else if |parts| == 1 then parts[0]
    else parts[0] + [sep] + Join(parts[1..], sep)
  }

  /** Joining the pieces of a split gives back the string. */
  lemma {:induction false} JoinSplit(s: string, sep: char)
    ensures Join(Split(s, sep), sep) == s
  {
    if |s| > 0 {
      var rest := Split(s[1..], sep);
      JoinSplit(s[1..], sep);
      if s[0] == sep {
        assert Split(s, sep) == [""] + rest;
        assert ([""] + rest)[1..] == rest;
        assert s == [sep] + s[1..];
      } else {
        var parts := [[s[0]] + rest[0]] + rest[1..];
        assert Split(s, sep) == parts;
        if |rest| == 1 {
          assert Join(rest, sep) == rest[0];
        } else {
          assert parts[1..] == rest[1..];
          assert Join(rest, sep) == rest[0] + [sep] + Join(rest[1..], sep);
        }
        assert s == [s[0]] + s[1..];
      }
    }
  }

  /** A separator-free prefix followed by the separator splits off as one piece. */
  lemma {:induction false} SplitAfterPiece(a: string, t: string, sep: char)
    requires sep !in a
    ensures Split(a + [sep] + t, sep) == [a] + Split(t, sep)
  {
    if |a| == 0 {
      assert a + [sep] + t == [sep] + t;
      assert ([sep] + t)[1..] == t;
    } else {
      var s := a + [sep] + t;
      assert s[1..] == a[1..] + [sep] + t;
      SplitAfterPiece(a[1..], t, sep);
      assert [s[0]] + a[1..] == a;
    }
  }

  /** A string without the separator splits into itself. */
  lemma {:induction false} SplitNoSeparator(a: string, sep: char)
    requires sep !in a
    ensures Split(a, sep) == [a]
  {
    if |a| > 0 {
      SplitNoSeparator(a[1..], sep);
      assert [a[0]] + a[1..] == a;
    }
  }

  /** Splitting a join gives back the pieces, when no piece holds the separator and
      there is at least one piece (`"".split(sep)` is `[""]`, never `[]`). */
  lemma {:induction false} SplitJoin(parts: seq<string>, sep: char)
    requires |parts| >= 1
    requires forall k :: 0 <= k < |parts| ==> sep !in parts[k]
    ensures Split(Join(parts, sep), sep) == parts
  {
    if |parts| == 1 {
      SplitNoSeparator(parts[0], sep);
    } else {
      SplitJoin(parts[1..], sep);
      SplitAfterPiece(parts[0], Join(parts[1..], sep), sep);
      assert [parts[0]] + parts[1..] == parts;
    }
  }
}
