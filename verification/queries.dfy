/** The queries the crawl issues: the 676 two-letter starting prefixes in
    either order, the point at which an interrupted crawl resumes, the
    refinements of a saturated query, and the saturation test itself. */
module Queries {
  import opened Text

  /** The i-th lowercase ASCII letter. */
  function Letter(i: int): char
    requires 0 <= i < 26
  {
    ('a' as int + i) as char
  }

  predicate IsLower(c: char) {
    'a' <= c <= 'z'
  }

  /** Where a lowercase letter stands in the alphabet. */
  function LetterIndex(c: char): (i: int)
    requires IsLower(c)
    ensures 0 <= i < 26 && Letter(i) == c
  {
    c as int - 'a' as int
  }

  /** Two lowercase letters. */
  predicate IsPrefix(s: string) {
    |s| == 2 && IsLower(s[0]) && IsLower(s[1])
  }

  /** The two-letter strings in `product(ascii_lowercase, repeat=2)` order:
      "aa", "ab", ..., "az", "ba", ..., "zz". */
  function AllPrefixes(): (ps: seq<string>)
    ensures |ps| == 676
    ensures forall i :: 0 <= i < |ps| ==> IsPrefix(ps[i])
    ensures ps[0] == "aa" && ps[675] == "zz"
  {
    seq(676, i requires 0 <= i < 676 => [Letter(i / 26), Letter(i % 26)])
  }

  /** The position of a two-letter string in `AllPrefixes()`. */
  function PrefixIndex(s: string): (i: int)
    requires IsPrefix(s)
    ensures 0 <= i < 676
  {
    LetterIndex(s[0]) * 26 + LetterIndex(s[1])
  }

  /** Every entry is two lowercase letters, and every two lowercase letters
      appear, at `PrefixIndex`. */
  lemma AllPrefixesExact(s: string)
    ensures s in AllPrefixes() <==> IsPrefix(s)
    ensures IsPrefix(s) ==> AllPrefixes()[PrefixIndex(s)] == s
  {
    if IsPrefix(s) {
      var i := PrefixIndex(s);
      assert i / 26 == LetterIndex(s[0]) && i % 26 == LetterIndex(s[1]);
      assert AllPrefixes()[i] == s;
    }
    if s in AllPrefixes() {
      var i :| 0 <= i < 676 && AllPrefixes()[i] == s;
      assert s == [Letter(i / 26), Letter(i % 26)];
    }
  }

  /** `AllPrefixes()` is strictly ascending under Python's string order. */
  lemma AllPrefixesAscending(i: int, j: int)
    requires 0 <= i < j < 676
    ensures LexLt(AllPrefixes()[i], AllPrefixes()[j])
  {
    var a, b := AllPrefixes()[i], AllPrefixes()[j];
    LexLtPairs(a, b);
    assert i / 26 < j / 26 || (i / 26 == j / 26 && i % 26 < j % 26);
  }

  /** No two-letter prefix sorts after "zz". */
  lemma AllPrefixesAtMostZz(s: string)
    requires s in AllPrefixes()
    ensures s == "zz" || LexLt(s, "zz")
  {
    AllPrefixesExact(s);
    LexLtPairs(s, "zz");
  }

  /** A key above "zz" is above every prefix. */
  lemma PastEveryPrefix(key: string, s: string)
    requires LexLt("zz", key) && s in AllPrefixes()
    ensures LexLt(s, key)
  {
    AllPrefixesAtMostZz(s);
    if s != "zz" {
      LexLtTransitive(s, "zz", key);
    }
  }

  /** The crawl's direction. */
  datatype Mode = Forward | Reversed

  /** `s[::-1]`. */
  function Reverse(s: seq<string>): (r: seq<string>)
    ensures |r| == |s|
    ensures forall i :: 0 <= i < |s| ==> r[i] == s[|s| - 1 - i]
  {
    seq(|s|, i requires 0 <= i < |s| => s[|s| - 1 - i])
  }

  /** The prefixes in crawl order. */
  function Prefixes(mode: Mode): (ps: seq<string>)
    ensures |ps| == 676
  {
    match mode
    case Forward => AllPrefixes()
    case Reversed => Reverse(AllPrefixes())
  }

  /** Both orders hold exactly the two-letter lowercase strings. */
  lemma PrefixesMembers(mode: Mode, s: string)
    ensures s in Prefixes(mode) <==> IsPrefix(s)
  {
    AllPrefixesExact(s);
    if mode.Reversed? {
      ReverseMembers(AllPrefixes(), s);
    }
  }

  lemma ReverseMembers(ps: seq<string>, s: string)
    ensures s in Reverse(ps) <==> s in ps
  {
    var rs := Reverse(ps);
    if s in ps {
      var i :| 0 <= i < |ps| && ps[i] == s;
      assert rs[|ps| - 1 - i] == s;
    }
    if s in rs {
      var i :| 0 <= i < |rs| && rs[i] == s;
      assert ps[|ps| - 1 - i] == s;
    }
  }

  /** `prefixes.index(x)`: the first position holding `x`. */
  function IndexOf(ps: seq<string>, x: string): (i: int)
    requires x in ps
    ensures 0 <= i < |ps| && ps[i] == x
    ensures forall k :: 0 <= k < i ==> ps[k] != x
  {
    if ps[0] == x then 0 else IndexOf(ps[1..], x) + 1
  }

  /** The resume scan from position `i` on: the first position whose
      prefix is at least `key`, or `otherwise` when there is none. */
  function FirstAtLeast(ps: seq<string>, key: string, i: nat, otherwise: int): (r: int)
    requires i <= |ps|
    ensures (i <= r < |ps| && LexLe(key, ps[r]) && forall k :: i <= k < r ==> !LexLe(key, ps[k]))
         || (r == otherwise && forall k :: i <= k < |ps| ==> !LexLe(key, ps[k]))
    decreases |ps| - i
  {
    if i == |ps| then otherwise
    else if LexLe(key, ps[i]) then i
    else FirstAtLeast(ps, key, i + 1, otherwise)
  }

  /** The first two characters of the checkpoint, or all of it if shorter
      (`last_prefix[:2]`). */
  function ResumeKey(last: string): (k: string)
    ensures |k| <= 2 && StartsWith(last, k)
  {
    if |last| <= 2 then last else last[..2]
  }

  /** The position from which an interrupted crawl resumes, given the
      stripped checkpoint text: the exact position of the checkpoint if it
      is a prefix, else 0 — then overridden by the first prefix that is at
      least the checkpoint's first two characters. */
  function ResumeIndex(mode: Mode, last: string): (r: int)
    ensures 0 <= r < 676
    ensures forall k :: 0 <= k < r ==> !LexLe(ResumeKey(last), Prefixes(mode)[k])
    ensures LexLe(ResumeKey(last), Prefixes(mode)[r])
            || forall k :: 0 <= k < 676 ==> !LexLe(ResumeKey(last), Prefixes(mode)[k])
  {
    var ps := Prefixes(mode);
    var fallback := if last in ps then IndexOf(ps, last) else 0;
    FirstAtLeast(ps, ResumeKey(last), 0, fallback)
  }

  /** The initial position is never what decides: the scan either finds a
      prefix or, when none is large enough, the checkpoint is no prefix and
      the initial position is 0 too. */
  lemma ResumeFallbackIrrelevant(mode: Mode, last: string)
    ensures ResumeIndex(mode, last) == FirstAtLeast(Prefixes(mode), ResumeKey(last), 0, 0)
  {
    var ps := Prefixes(mode);
    if last in ps {
      var i := IndexOf(ps, last);
      PrefixesMembers(mode, last);
      assert ResumeKey(last) == last;
      LexLtIrreflexive(last);
      assert LexLe(ResumeKey(last), ps[i]);
    }
  }

  /** With no checkpoint (empty text) the crawl starts from the first
      prefix. */
  lemma ResumeEmpty(mode: Mode)
    ensures ResumeIndex(mode, "") == 0
  {
    var ps := Prefixes(mode);
    assert LexLe("", ps[0]);
  }

  /** Forward, a checkpoint that begins with two lowercase letters resumes
      at exactly that prefix: it is scraped again, and none before it. */
  lemma ResumeForward(last: string)
    requires |last| >= 2 && IsPrefix(last[..2])
    ensures ResumeIndex(Forward, last) == PrefixIndex(last[..2])
  {
    var key := last[..2];
    var n := PrefixIndex(key);
    AllPrefixesExact(key);
    ResumeFallbackIrrelevant(Forward, last);
    var r := FirstAtLeast(AllPrefixes(), key, 0, 0);
    LexLtIrreflexive(key);
    assert LexLe(key, AllPrefixes()[n]);
    if r < n {
      AllPrefixesAscending(r, n);
    }
  }

  /** A key above every prefix makes the scan find nothing, and the resume
      position is 0. */
  lemma ResumePastEnd(mode: Mode, last: string)
    requires LexLt("zz", ResumeKey(last))
    ensures ResumeIndex(mode, last) == 0
  {
    ResumeFallbackIrrelevant(mode, last);
    var ps := Prefixes(mode);
    var key := ResumeKey(last);
    forall k | 0 <= k < |ps| ensures !LexLe(key, ps[k]) {
      PrefixesMembers(mode, ps[k]);
      AllPrefixesExact(ps[k]);
      PastEveryPrefix(key, ps[k]);
    }
  }

  /** Forward, a checkpoint that sorts after every prefix (say "{") sends the
      crawl back to the first prefix. */
  lemma ResumeForwardPastEnd(last: string)
    requires LexLt("zz", ResumeKey(last))
    ensures ResumeIndex(Forward, last) == 0
  {
    ResumePastEnd(Forward, last);
  }

  /** Reversed, the crawl always restarts from "zz", whatever the
      checkpoint: the first prefix in that order is "zz" itself, and the
      checkpoint is compared by `>=`. */
  lemma ResumeReversedAlwaysZero(last: string)
    ensures ResumeIndex(Reversed, last) == 0
  {
    var key := ResumeKey(last);
    if LexLt("zz", key) {
      ResumePastEnd(Reversed, last);
    } else {
      ResumeFallbackIrrelevant(Reversed, last);
      var ps := Prefixes(Reversed);
      assert ps[0] == AllPrefixes()[675] == "zz";
      assert LexLe(key, ps[0]);
    }
  }

  /** The one-letter extensions, in alphabetical order. */
  function Letters(): (ls: seq<string>)
    ensures |ls| == 26
  {
    seq(26, i requires 0 <= i < 26 => [Letter(i)])
  }

  /** The space-letter extensions, in alphabetical order. */
  function SpacedLetters(): (ls: seq<string>)
    ensures |ls| == 26
  {
    seq(26, i requires 0 <= i < 26 => [' ', Letter(i)])
  }

  /** A space-letter refinement is added only for a term longer than two
      characters that has no space yet. */
  predicate RefinesWithSpace(term: string) {
    |term| > 2 && ' ' !in term
  }

  /** Appends each extension to the term. */
  function Extend(term: string, exts: seq<string>): (r: seq<string>)
    ensures |r| == |exts|
  {
    seq(|exts|, i requires 0 <= i < |exts| => term + exts[i])
  }

  /** The refinements of a saturated query, in the order they are issued. */
  function Children(term: string): (r: seq<string>)
    ensures |r| == (if RefinesWithSpace(term) then 52 else 26)
    ensures forall k :: 0 <= k < 26 ==> r[k] == term + [Letter(k)]
    ensures RefinesWithSpace(term) ==> forall k :: 0 <= k < 26 ==> r[26 + k] == term + [' ', Letter(k)]
  {
    Extend(term, Letters()) + (if RefinesWithSpace(term) then Extend(term, SpacedLetters()) else [])
  }

  /** Every refinement extends the term: by one letter, or by a space and a
      letter when the term allows it; and every such extension is issued. */
  lemma ChildrenMembers(term: string, c: string)
    ensures c in Children(term) <==>
              (|c| == |term| + 1 && StartsWith(c, term) && IsLower(c[|term|]))
              || (RefinesWithSpace(term) && |c| == |term| + 2 && StartsWith(c, term)
                  && c[|term|] == ' ' && IsLower(c[|term| + 1]))
  {
    var kids := Children(term);
    if c in kids {
      var i :| 0 <= i < |kids| && kids[i] == c;
      if i < 26 {
        assert c == term + [Letter(i)];
        assert c[..|term|] == term;
      } else {
        assert c == term + [' ', Letter(i - 26)];
        assert c[..|term|] == term;
      }
    }
    if |c| == |term| + 1 && StartsWith(c, term) && IsLower(c[|term|]) {
      var i := LetterIndex(c[|term|]);
      assert c == term + [Letter(i)];
      assert kids[i] == c;
    } else if RefinesWithSpace(term) && |c| == |term| + 2 && StartsWith(c, term)
              && c[|term|] == ' ' && IsLower(c[|term| + 1]) {
      var i := LetterIndex(c[|term| + 1]);
      assert c == term + [' ', Letter(i)];
      assert kids[26 + i] == c;
    }
  }

  /** Every refinement is a strict extension of the term, and the first
      one appends "a". */
  lemma ChildrenExtend(term: string)
    ensures forall t :: t in Children(term) ==> |term| < |t| && StartsWith(t, term)
    ensures Children(term)[0] == term + "a"
  {
    forall t | t in Children(term) ensures |term| < |t| && StartsWith(t, term) {
      ChildrenMembers(term, t);
    }
    assert Children(term)[0] == term + [Letter(0)];
  }

  /** The refinements are pairwise distinct, so none is issued twice by one
      saturated query. */
  lemma ChildrenDistinct(term: string, i: int, j: int)
    requires 0 <= i < j < |Children(term)|
    ensures Children(term)[i] != Children(term)[j]
  {
    var kids := Children(term);
    if i < 26 && j >= 26 {
      assert |kids[i]| != |kids[j]|;
    } else if j < 26 {
      assert kids[i][|term|] != kids[j][|term|];
    } else {
      assert kids[i][|term| + 1] != kids[j][|term| + 1];
    }
  }

  /** A space is introduced at most once along a chain of refinements: a
      refinement that has a space gets only the 26 letter refinements. */
  lemma SpaceAddedOnce(term: string, c: string)
    requires c in Children(term) && ' ' in c
    ensures |Children(c)| == 26
  {
  }

  /** A two-letter prefix never gets space-letter refinements; a longer term
      without a space does. */
  lemma ChildrenOfPrefix(s: string)
    requires IsPrefix(s)
    ensures |Children(s)| == 26
    ensures |Children(s + "a")| == 52
  {
    assert ' ' !in s + "a" by {
      assert forall k :: 0 <= k < 3 ==> (s + "a")[k] != ' ';
    }
  }

  /** The number of raw entries at which a query counts as saturated. */
  const SaturationCap: nat := 100

  /** `numPeople >= 100`: every entry counts, read or not. */
  predicate Saturated(raw: nat) {
    raw >= SaturationCap
  }
}
