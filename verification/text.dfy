/** The string primitives the scraper relies on, with Python's meaning:
    `strip`/`lstrip` (with and without an explicit character set),
    `replace(": ", "")`, `startswith`, and the ordering `<` / `>=` on
    strings (code-point lexicographic, a proper prefix sorts first). */
module Text {

  /** The two character sets the scraper strips: Python's whitespace (what
      `strip()` and `lstrip()` remove when given no argument) and the set
      {':', ' '} given as `strip(": ")`. */
  datatype CharClass = Whitespace | ColonSpace

  /** Python's `str.isspace()` on one character. */
  predicate IsSpace(c: char) {
    || c == ' ' || ('\t' <= c <= '\r') || ('\U{001C}' <= c <= '\U{001F}')
    || c == '\U{0085}' || c == '\U{00A0}' || c == '\U{1680}' || ('\U{2000}' <= c <= '\U{200A}')
    || c == '\U{2028}' || c == '\U{2029}' || c == '\U{202F}' || c == '\U{205F}' || c == '\U{3000}'
  }

  predicate In(c: char, cs: CharClass) {
    match cs
    case Whitespace => IsSpace(c)
    case ColonSpace => c == ':' || c == ' '
  }

  /** `s.lstrip(cs)`: drop leading characters of class `cs`. */
  function TrimLeft(s: string, cs: CharClass): (r: string)
    ensures |r| <= |s|
    ensures r == [] || !In(r[0], cs)
  {
    if |s| > 0 && In(s[0], cs) then TrimLeft(s[1..], cs) else s
  }

  /** `s.rstrip(cs)`: drop trailing characters of class `cs`. */
  function TrimRight(s: string, cs: CharClass): (r: string)
    ensures |r| <= |s|
    ensures r == [] || !In(r[|r| - 1], cs)
  {
    if |s| > 0 && In(s[|s| - 1], cs) then TrimRight(s[..|s| - 1], cs) else s
  }

  /** `lstrip` keeps a suffix and removes only characters of the class. */
  lemma {:induction false} TrimLeftKeepsSuffix(s: string, cs: CharClass)
    ensures TrimLeft(s, cs) == s[|s| - |TrimLeft(s, cs)|..]
    ensures forall k :: 0 <= k < |s| - |TrimLeft(s, cs)| ==> In(s[k], cs)
  {
    if |s| > 0 && In(s[0], cs) {
      TrimLeftKeepsSuffix(s[1..], cs);
      assert s[1..][|s| - 1 - |TrimLeft(s, cs)|..] == s[|s| - |TrimLeft(s, cs)|..];
      forall k | 1 <= k < |s| - |TrimLeft(s, cs)| ensures In(s[k], cs) {
        assert s[k] == s[1..][k - 1];
      }
    }
  }

  /** `rstrip` keeps a prefix and removes only characters of the class. */
  lemma {:induction false} TrimRightKeepsPrefix(s: string, cs: CharClass)
    ensures TrimRight(s, cs) == s[..|TrimRight(s, cs)|]
    ensures forall k :: |TrimRight(s, cs)| <= k < |s| ==> In(s[k], cs)
  {
    if |s| > 0 && In(s[|s| - 1], cs) {
      TrimRightKeepsPrefix(s[..|s| - 1], cs);
      assert s[..|s| - 1][..|TrimRight(s, cs)|] == s[..|TrimRight(s, cs)|];
      forall k | |TrimRight(s, cs)| <= k < |s| - 1 ensures In(s[k], cs) {
        assert s[k] == s[..|s| - 1][k];
      }
    }
  }

  /** Neither end of `s` is a character of class `cs`. */
  predicate TrimmedBy(s: string, cs: CharClass) {
    s == [] || (!In(s[0], cs) && !In(s[|s| - 1], cs))
  }

  /** `s.strip(cs)`: the middle of `s` left once the leading and trailing
      characters of class `cs` are cut away. */
  function Trim(s: string, cs: CharClass): (r: string)
    ensures |r| <= |s|
    ensures TrimmedBy(r, cs)
  {
    var l := TrimLeft(s, cs);
    var r := TrimRight(l, cs);
    assert TrimmedBy(r, cs) by {
      TrimRightKeepsPrefix(l, cs);
      if r != [] {
        assert r[0] == l[0];
      }
    }
    r
  }

  /** `r` is the slice `s[i..j]` and everything cut on either side belongs
      to class `cs`. */
  ghost predicate CutFrom(r: string, s: string, cs: CharClass) {
    exists i, j :: 0 <= i <= j <= |s| && r == s[i..j]
                && (forall k :: 0 <= k < i ==> In(s[k], cs))
                && (forall k :: j <= k < |s| ==> In(s[k], cs))
  }

  /** `strip` keeps one contiguous slice and cuts only characters of its
      class; with `TrimmedBy` this pins its result down. */
  lemma TrimCutsOnlyClass(s: string, cs: CharClass)
    ensures CutFrom(Trim(s, cs), s, cs)
  {
    var l := TrimLeft(s, cs);
    var r := TrimRight(l, cs);
    var i := |s| - |l|;
    TrimLeftKeepsSuffix(s, cs);
    TrimRightKeepsPrefix(l, cs);
    assert l == s[i..];
    assert r == l[..|r|];
    assert r == s[i..i + |r|];
    assert forall k :: i + |r| <= k < |s| ==> In(s[k], cs) by {
      forall k | i + |r| <= k < |s| ensures In(s[k], cs) {
        assert s[k] == l[k - i];
      }
    }
    assert r == Trim(s, cs);
  }

  /** The slice `s[i..j]` is cut from `s` by class `cs` and is trimmed. */
  predicate CutAt(s: string, i: int, j: int, cs: CharClass) {
    && 0 <= i <= j <= |s|
    && (forall k :: 0 <= k < i ==> In(s[k], cs))
    && (forall k :: j <= k < |s| ==> In(s[k], cs))
    && (i < j ==> !In(s[i], cs) && !In(s[j - 1], cs))
  }

  /** Two trimmed cuts of one string start and end at the same place,
      unless both are empty. */
  lemma CutAtUnique(s: string, i: int, j: int, i': int, j': int, cs: CharClass)
    requires CutAt(s, i, j, cs) && CutAt(s, i', j', cs)
    ensures i < j ==> i == i' && j == j'
    ensures i' < j' ==> i == i' && j == j'
  {
  }

  lemma CutAtOf(r: string, s: string, cs: CharClass) returns (i: int, j: int)
    requires CutFrom(r, s, cs) && TrimmedBy(r, cs)
    ensures CutAt(s, i, j, cs) && r == s[i..j]
  {
    i, j :| 0 <= i <= j <= |s| && r == s[i..j]
            && (forall k :: 0 <= k < i ==> In(s[k], cs)) && (forall k :: j <= k < |s| ==> In(s[k], cs));
    SliceEnds(r, s, i, j, cs);
  }

  lemma SliceEnds(r: string, s: string, i: int, j: int, cs: CharClass)
    requires 0 <= i <= j <= |s| && r == s[i..j] && TrimmedBy(r, cs)
    ensures i < j ==> !In(s[i], cs) && !In(s[j - 1], cs)
  {
    if i < j {
      assert r[0] == s[i];
      assert r[|r| - 1] == s[j - 1];
    }
  }

  /** At most one slice of `s` is cut from it by class `cs` and keeps no
      character of `cs` at either end: that slice is `Trim(s, cs)`. */
  lemma CutUnique(a: string, b: string, s: string, cs: CharClass)
    requires CutFrom(a, s, cs) && TrimmedBy(a, cs)
    requires CutFrom(b, s, cs) && TrimmedBy(b, cs)
    ensures a == b
  {
    var i, j := CutAtOf(a, s, cs);
    var i', j' := CutAtOf(b, s, cs);
    CutAtUnique(s, i, j, i', j', cs);
  }

  lemma TrimOfTrimmed(s: string, cs: CharClass)
    requires TrimmedBy(s, cs)
    ensures Trim(s, cs) == s
  {
  }

  /** Stripping twice is stripping once. */
  lemma TrimIdempotent(s: string, cs: CharClass)
    ensures Trim(Trim(s, cs), cs) == Trim(s, cs)
  {
    TrimOfTrimmed(Trim(s, cs), cs);
  }

  /** Python `s.strip()`. */
  function Strip(s: string): string {
    Trim(s, Whitespace)
  }

  /** Python `s.lstrip()`. */
  function LStrip(s: string): string {
    TrimLeft(s, Whitespace)
  }

  /** No leading or trailing whitespace: what `strip()` leaves. */
  predicate Trimmed(s: string) {
    TrimmedBy(s, Whitespace)
  }

  /** `s` holds the two-character pattern ": " somewhere. */
  predicate HasColonSpace(s: string) {
    exists k :: 0 <= k < |s| - 1 && s[k] == ':' && s[k + 1] == ' '
  }

  /** Python `s.replace(": ", "")`: scanning left to right, every
      non-overlapping occurrence of ": " is deleted; the text is not
      rescanned, so "::  " becomes ": ". */
  function RemoveColonSpace(s: string): (r: string)
    ensures |r| <= |s|
    ensures !HasColonSpace(s) ==> r == s
    ensures HasColonSpace(s) ==> |r| <= |s| - 2
  {
    if |s| >= 2 && s[0] == ':' && s[1] == ' ' then
      RemoveColonSpace(s[2..])
    else if |s| == 0 then
      []
    else
      assert HasColonSpace(s) ==> HasColonSpace(s[1..]) by {
        if HasColonSpace(s) {
          var k :| 0 <= k < |s| - 1 && s[k] == ':' && s[k + 1] == ' ';
          assert k > 0 && s[1..][k - 1] == ':' && s[1..][k] == ' ';
        }
      }
      assert !HasColonSpace(s) ==> !HasColonSpace(s[1..]) by {
        if HasColonSpace(s[1..]) {
          var k :| 0 <= k < |s[1..]| - 1 && s[1..][k] == ':' && s[1..][k + 1] == ' ';
          assert s[k + 1] == ':' && s[k + 2] == ' ';
        }
      }
      [s[0]] + RemoveColonSpace(s[1..])
  }

  /** Removing the occurrences of ": " around one occurrence of it is
      removing them on each side: together with the unchanged case this
      fixes the result on every string, split at its first occurrence. */
  lemma {:induction false} RemoveColonSpaceSplit(a: string, b: string)
    ensures RemoveColonSpace(a + [':', ' '] + b) == RemoveColonSpace(a) + RemoveColonSpace(b)
    decreases |a|
  {
    if a == [] {
      assert a + [':', ' '] + b == [':', ' '] + b;
      DropColonSpace(b);
    } else if |a| >= 2 && a[0] == ':' && a[1] == ' ' {
      RemoveColonSpaceSplit(a[2..], b);
      SplitAfterDrop(a, b);
    } else {
      RemoveColonSpaceSplit(a[1..], b);
      SplitAfterKeep(a, b);
    }
  }

  /** The step of `RemoveColonSpaceSplit` where `a` starts with ": ". */
  lemma {:induction false} SplitAfterDrop(a: string, b: string)
    requires |a| >= 2 && a[0] == ':' && a[1] == ' '
    requires RemoveColonSpace(a[2..] + [':', ' '] + b) == RemoveColonSpace(a[2..]) + RemoveColonSpace(b)
    ensures RemoveColonSpace(a + [':', ' '] + b) == RemoveColonSpace(a) + RemoveColonSpace(b)
  {
    DropShape(a, b);
    DropColonSpace(a[2..] + [':', ' '] + b);
    DropColonSpace(a[2..]);
  }

  /** The step of `RemoveColonSpaceSplit` where `a`'s first character is
      kept. */
  lemma {:induction false} SplitAfterKeep(a: string, b: string)
    requires a != [] && !(|a| >= 2 && a[0] == ':' && a[1] == ' ')
    requires RemoveColonSpace(a[1..] + [':', ' '] + b) == RemoveColonSpace(a[1..]) + RemoveColonSpace(b)
    ensures RemoveColonSpace(a + [':', ' '] + b) == RemoveColonSpace(a) + RemoveColonSpace(b)
  {
    var s := a + [':', ' '] + b;
    var x, y := RemoveColonSpace(a[1..]), RemoveColonSpace(b);
    assert RemoveColonSpace(s) == [a[0]] + (x + y) by {
      KeepShape(a, b);
      KeepHead(s);
    }
    assert RemoveColonSpace(a) == [a[0]] + x by {
      KeepHead(a);
    }
    ConsThenJoin(a[0], RemoveColonSpace(s), RemoveColonSpace(a), x, y);
  }

  /** A character put before a join is that character put before the
      first part, then joined. */
  lemma ConsThenJoin(c: char, joined: string, first: string, x: string, y: string)
    requires joined == [c] + (x + y) && first == [c] + x
    ensures joined == first + y
  {
  }

  /** A string that starts with ": " is ": " and the rest. */
  lemma {:induction false} DropShape(a: string, b: string)
    requires |a| >= 2 && a[0] == ':' && a[1] == ' '
    ensures a + [':', ' '] + b == [':', ' '] + (a[2..] + [':', ' '] + b)
    ensures a == [':', ' '] + a[2..]
  {
  }

  /** Where `a`'s first character and the rest of `a + ": " + b` stand. */
  lemma {:induction false} KeepShape(a: string, b: string)
    requires a != []
    ensures (a + [':', ' '] + b)[0] == a[0]
    ensures (a + [':', ' '] + b)[1] == (if |a| == 1 then ':' else a[1])
    ensures (a + [':', ' '] + b)[1..] == a[1..] + [':', ' '] + b
  {
  }

  lemma DropColonSpace(t: string)
    ensures RemoveColonSpace([':', ' '] + t) == RemoveColonSpace(t)
  {
    assert ([':', ' '] + t)[2..] == t;
  }

  lemma KeepHead(s: string)
    requires s != [] && !(|s| >= 2 && s[0] == ':' && s[1] == ' ')
    ensures RemoveColonSpace(s) == [s[0]] + RemoveColonSpace(s[1..])
  {
  }

  /** What `replace(": ", "")` takes away is only colons and spaces, as
      many of one as of the other; every other character keeps its count. */
  lemma RemoveColonSpaceCounts(s: string)
    ensures forall c :: c != ':' && c != ' ' ==> multiset(RemoveColonSpace(s))[c] == multiset(s)[c]
    ensures multiset(RemoveColonSpace(s))[':'] <= multiset(s)[':']
    ensures multiset(s)[':'] + multiset(RemoveColonSpace(s))[' '] == multiset(s)[' '] + multiset(RemoveColonSpace(s))[':']
    ensures |s| + 2 * multiset(RemoveColonSpace(s))[':'] == |RemoveColonSpace(s)| + 2 * multiset(s)[':']
  {
    var r := RemoveColonSpace(s);
    forall c | c != ':' && c != ' ' ensures multiset(r)[c] == multiset(s)[c] {
      RemoveColonSpaceCount(s, c);
      CountIsMultiset(s, c);
      CountIsMultiset(r, c);
    }
    RemoveColonSpaceCount(s, ':');
    RemoveColonSpaceCount(s, ' ');
    assert Count(r, ':') <= Count(s, ':') by {
      assert |r| <= |s|;
    }
    CountIsMultiset(s, ':');
    CountIsMultiset(r, ':');
    CountIsMultiset(s, ' ');
    CountIsMultiset(r, ' ');
  }

  /** The number of occurrences of `c` in `s`. */
  function Count(s: string, c: char): nat {
    if s == [] then 0 else (if s[0] == c then 1 else 0) + Count(s[1..], c)
  }

  lemma {:induction false} CountIsMultiset(s: string, c: char)
    ensures Count(s, c) == multiset(s)[c]
  {
    if s != [] {
      assert s == [s[0]] + s[1..];
      CountIsMultiset(s[1..], c);
    }
  }

  /** The counting form of `RemoveColonSpaceCounts`. */
  lemma {:induction false} RemoveColonSpaceCount(s: string, c: char)
    ensures c != ':' && c != ' ' ==> Count(RemoveColonSpace(s), c) == Count(s, c)
    ensures c == ':' || c == ' ' ==> 2 * (Count(s, c) - Count(RemoveColonSpace(s), c)) == |s| - |RemoveColonSpace(s)|
  {
    if |s| >= 2 && s[0] == ':' && s[1] == ' ' {
      var t := s[2..];
      RemoveColonSpaceCount(t, c);
      assert RemoveColonSpace(s) == RemoveColonSpace(t);
      assert s[1..][1..] == t;
      assert Count(s, c) == (if c == ':' || c == ' ' then 1 else 0) + Count(t, c);
    } else if |s| > 0 {
      var t := s[1..];
      RemoveColonSpaceCount(t, c);
      var r := RemoveColonSpace(t);
      assert RemoveColonSpace(s) == [s[0]] + r;
      assert ([s[0]] + r)[1..] == r;
    }
  }

  /** Python `s.startswith(p)`. */
  predicate StartsWith(s: string, p: string) {
    |p| <= |s| && s[..|p|] == p
  }

  lemma StartsWithTransitive(s: string, m: string, p: string)
    requires StartsWith(s, m) && StartsWith(m, p)
    ensures StartsWith(s, p)
  {
    assert s[..|p|] == s[..|m|][..|p|];
  }

  /** Python's `a < b` on strings: code-point lexicographic order in which a
      proper prefix comes first. */
  predicate LexLt(a: string, b: string) {
    if |b| == 0 then false
    else if |a| == 0 then true
    else if a[0] != b[0] then a[0] < b[0]
    else LexLt(a[1..], b[1..])
  }

  /** Python's `b >= a`, written with the smaller side first. */
  predicate LexLe(a: string, b: string) {
    !LexLt(b, a)
  }

  lemma {:induction false} LexLtIrreflexive(a: string)
    ensures !LexLt(a, a)
  {
    if |a| > 0 {
      LexLtIrreflexive(a[1..]);
    }
  }

  lemma {:induction false} LexLtTransitive(a: string, b: string, c: string)
    requires LexLt(a, b) && LexLt(b, c)
    ensures LexLt(a, c)
  {
    if |a| > 0 && a[0] == b[0] && b[0] == c[0] {
      LexLtTransitive(a[1..], b[1..], c[1..]);
    }
  }

  /** On two-character strings, `<` compares the first characters and then,
      on a tie, the second. */
  lemma LexLtPairs(a: string, b: string)
    requires |a| == 2 && |b| == 2
    ensures LexLt(a, b) <==> a[0] < b[0] || (a[0] == b[0] && a[1] < b[1])
  {
    if a[0] == b[0] {
      assert a[1..][0] == a[1] && b[1..][0] == b[1];
      if a[1] == b[1] {
        assert a == b;
        LexLtIrreflexive(a);
      }
    }
  }
}
