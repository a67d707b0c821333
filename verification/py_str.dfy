/**
 * Python text semantics that the modelled code relies on: code points,
 * `str.isspace`, `strip`, `split()`, `join`, `find`, slicing, `rsplit(' ', 1)`
 * and `lower`.
 *
 * A Python `str` is a sequence of code points in [0, 0x110000). Unlike Dafny's
 * `char`, it may hold lone surrogates (0xD800..0xDFFF), which is exactly what
 * UTF-8 encoding rejects, so strings are modelled as `seq<CodePoint>`.
 */
module PyStr {
  import opened Wrappers

  type CodePoint = c: int | 0 <= c < 0x11_0000
  type Str = seq<CodePoint>

  const SPACE: CodePoint := 0x20
  const NEWLINE: CodePoint := 0x0A
  const PERIOD: CodePoint := 0x2E

  /** A Dafny string literal as a Python string. */
  function Lit(s: string): (r: Str)
    ensures |r| == |s|
    ensures forall i :: 0 <= i < |s| ==> r[i] == s[i] as int
  {
    seq(|s|, i requires 0 <= i < |s| => s[i] as int)
  }

  /** `c.isspace()` in Python 3: the characters `split()` and `strip()` treat as whitespace. */
  predicate IsSpace(c: CodePoint) {
    || 0x09 <= c <= 0x0D
    || 0x1C <= c <= 0x20
    || c == 0x85 || c == 0xA0 || c == 0x1680
    || 0x2000 <= c <= 0x200A
    || c == 0x2028 || c == 0x2029 || c == 0x202F || c == 0x205F || c == 0x3000
  }

  predicate AllSpace(s: Str) {
    forall i :: 0 <= i < |s| ==> IsSpace(s[i])
  }

  predicate NoSpace(s: Str) {
    forall i :: 0 <= i < |s| ==> !IsSpace(s[i])
  }

  /** A string that starts and ends with a non-whitespace character, or is empty. */
  predicate Trimmed(s: Str) {
    s == [] || (!IsSpace(s[0]) && !IsSpace(s[|s| - 1]))
  }

  // ---------------------------------------------------------------- strip

  /** `s.lstrip()`: the suffix of `s` left after dropping leading whitespace. */
  function LStrip(s: Str): (r: Str)
    ensures |r| <= |s| && r == s[|s| - |r|..]
    ensures r == [] || !IsSpace(r[0])
    ensures AllSpace(s[..|s| - |r|])
  {
    if s != [] && IsSpace(s[0]) then LStrip(s[1..]) else s
  }

  /** `s.rstrip()`: the prefix of `s` left after dropping trailing whitespace. */
  function RStrip(s: Str): (r: Str)
    ensures |r| <= |s| && r == s[..|r|]
    ensures r == [] || !IsSpace(r[|r| - 1])
    ensures AllSpace(s[|r|..])
  {
    if s != [] && IsSpace(s[|s| - 1]) then
      var r := RStrip(s[..|s| - 1]);
      assert s[|r|..] == s[..|s| - 1][|r|..] + [s[|s| - 1]];
      r
    else s
  }

  /** `s.strip()`: the slice of `s` between its leading and trailing whitespace. */
  function Strip(s: Str): (r: Str)
    ensures Trimmed(r)
    ensures |r| <= |LStrip(s)| <= |s| && r == s[|s| - |LStrip(s)|..][..|r|]
    ensures r == [] <==> AllSpace(s)
  {
    var l := LStrip(s);
    var r := RStrip(l);
    assert r == [] ==> AllSpace(s) by {
      if r == [] {
        assert s == s[..|s| - |l|] + l;
      }
    }
    r
  }

  lemma {:induction false} StripTrimmed(s: Str)
    requires Trimmed(s)
    ensures Strip(s) == s
  {
    assert LStrip(s) == s;
    assert RStrip(s) == s;
  }

  // ---------------------------------------------------------------- split and join

  /** `s.split()`: the maximal runs of non-whitespace of `s`, in order. */
  function Split(s: Str): seq<Str> {
    SplitFrom(s, [])
  }

  /** The words of `word + s`, where `word` is a partial word already read. */
  function SplitFrom(s: Str, word: Str): seq<Str>
    decreases |s|
  {
    if s == [] then Flush(word)
    else if IsSpace(s[0]) then Flush(word) + SplitFrom(s[1..], [])
    else SplitFrom(s[1..], word + [s[0]])
  }

  function Flush(word: Str): seq<Str> {
    if word == [] then [] else [word]
  }

  /** What `split()` can produce: a non-empty run without whitespace. */
  predicate IsWord(w: Str) {
    w != [] && NoSpace(w)
  }

  predicate AllWords(ws: seq<Str>) {
    forall k :: 0 <= k < |ws| ==> IsWord(ws[k])
  }

  /** `sep.join(parts)`. */
  function Join(sep: Str, parts: seq<Str>): (r: Str)
    ensures |r| == TotalLength(parts) + (if parts == [] then 0 else (|parts| - 1) * |sep|)
  {
    if parts == [] then []
    else if |parts| == 1 then parts[0]
    else parts[0] + sep + Join(sep, parts[1..])
  }

  function TotalLength(parts: seq<Str>): nat {
    if parts == [] then 0 else |parts[0]| + TotalLength(parts[1..])
  }

  lemma {:induction false} SplitFromWords(s: Str, word: Str)
    requires NoSpace(word)
    ensures AllWords(SplitFrom(s, word))
    decreases |s|
  {
    if s == [] {
    } else if IsSpace(s[0]) {
      SplitFromWords(s[1..], []);
    } else {
      SplitFromWords(s[1..], word + [s[0]]);
    }
  }

  /** Every element of `split()` is a non-empty run without whitespace. */
  lemma SplitWords(s: Str)
    ensures AllWords(Split(s))
  {
    SplitFromWords(s, []);
  }

  lemma {:induction false} SplitFromEmpty(s: Str, word: Str)
    ensures SplitFrom(s, word) == [] <==> word == [] && AllSpace(s)
    decreases |s|
  {
    if s == [] {
    } else if IsSpace(s[0]) {
      SplitFromEmpty(s[1..], []);
    } else {
      SplitFromEmpty(s[1..], word + [s[0]]);
    }
  }

  /** `split()` returns no word exactly for a blank string (one that `strip()` empties). */
  lemma SplitEmpty(s: Str)
    ensures Split(s) == [] <==> Strip(s) == []
  {
    SplitFromEmpty(s, []);
  }

  lemma {:induction false} SplitFromAtSpace(a: Str, c: CodePoint, b: Str, word: Str)
    requires IsSpace(c)
    ensures SplitFrom(a + [c] + b, word) == SplitFrom(a, word) + Split(b)
    decreases |a|
  {
    if a == [] {
      assert a + [c] + b == [c] + b;
    } else {
      assert (a + [c] + b)[1..] == a[1..] + [c] + b;
      if IsSpace(a[0]) {
        SplitFromAtSpace(a[1..], c, b, []);
      } else {
        SplitFromAtSpace(a[1..], c, b, word + [a[0]]);
      }
    }
  }

  /** Splitting at a whitespace character splits the words. */
  lemma SplitAtSpace(a: Str, c: CodePoint, b: Str)
    requires IsSpace(c)
    ensures Split(a + [c] + b) == Split(a) + Split(b)
  {
    SplitFromAtSpace(a, c, b, []);
  }

  lemma {:induction false} SplitFromNoSpace(w: Str, word: Str)
    requires NoSpace(w)
    ensures SplitFrom(w, word) == Flush(word + w)
    decreases |w|
  {
    if w == [] {
      assert word + w == word;
    } else {
      SplitFromNoSpace(w[1..], word + [w[0]]);
      assert word + [w[0]] + w[1..] == word + w;
    }
  }

  /** Joining words with single spaces and splitting again gives the words back. */
  lemma {:induction false} SplitJoin(ws: seq<Str>)
    requires AllWords(ws)
    ensures Split(Join([SPACE], ws)) == ws
    decreases |ws|
  {
    if ws == [] {
    } else if |ws| == 1 {
      SplitFromNoSpace(ws[0], []);
      assert [] + ws[0] == ws[0];
    } else {
      SplitJoin(ws[1..]);
      SplitFromNoSpace(ws[0], []);
      assert [] + ws[0] == ws[0];
      SplitAtSpace(ws[0], SPACE, Join([SPACE], ws[1..]));
      assert ws[0] + [SPACE] + Join([SPACE], ws[1..]) == Join([SPACE], ws);
      assert [ws[0]] + ws[1..] == ws;
    }
  }

  lemma {:induction false} JoinSplitFromLength(s: Str, word: Str)
    ensures |Join([SPACE], SplitFrom(s, word))| <= |word| + |s|
    decreases |s|
  {
    if s == [] {
    } else if IsSpace(s[0]) {
      JoinSplitFromLength(s[1..], []);
      var rest := SplitFrom(s[1..], []);
      if word != [] && rest != [] {
        assert Flush(word) + rest == [word] + rest;
        assert ([word] + rest)[1..] == rest;
      } else if word != [] {
        assert Flush(word) + rest == [word];
      } else {
        assert Flush(word) + rest == rest;
      }
    } else {
      JoinSplitFromLength(s[1..], word + [s[0]]);
    }
  }

  /** Re-joining the words of `s` with single spaces never makes it longer. */
  lemma JoinSplitLength(s: Str)
    ensures |Join([SPACE], Split(s))| <= |s|
  {
    JoinSplitFromLength(s, []);
  }

  /** Words joined by one space start and end with non-whitespace and hold no doubled space. */
  lemma {:induction false} JoinWordsShape(ws: seq<Str>)
    requires AllWords(ws)
    ensures Trimmed(Join([SPACE], ws))
    ensures forall i :: 0 <= i < |Join([SPACE], ws)| - 1 ==>
              !(IsSpace(Join([SPACE], ws)[i]) && IsSpace(Join([SPACE], ws)[i + 1]))
    decreases |ws|
  {
    if |ws| > 1 {
      JoinWordsShape(ws[1..]);
      var w, t := ws[0], Join([SPACE], ws[1..]);
      var r := w + [SPACE] + t;
      assert r == Join([SPACE], ws);
      forall i | 0 <= i < |r| - 1
        ensures !(IsSpace(r[i]) && IsSpace(r[i + 1]))
      {
        if i < |w| - 1 {
        } else if i == |w| - 1 {
        } else if i == |w| {
          assert r[i + 1] == t[0];
        } else {
          assert r[i] == t[i - |w| - 1] && r[i + 1] == t[i - |w|];
        }
      }
    }
  }

  // ---------------------------------------------------------------- search

  /** `sub` occurs in `s` at index `i`. */
  predicate OccursAt(s: Str, sub: Str, i: nat) {
    i + |sub| <= |s| && s[i..i + |sub|] == sub
  }

  /** `s.find(sub, i)`, with `None` for Python's -1. */
  function FindFrom(s: Str, sub: Str, i: nat): (r: Option<nat>)
    ensures r.Some? ==> i <= r.value && OccursAt(s, sub, r.value)
    ensures r.Some? ==> forall j :: i <= j < r.value ==> !OccursAt(s, sub, j)
    ensures r.None? ==> forall j :: i <= j ==> !OccursAt(s, sub, j)
    decreases |s| - i
  {
    if i + |sub| > |s| then None
    else if s[i..i + |sub|] == sub then Some(i)
    else FindFrom(s, sub, i + 1)
  }

  /** `s.find(sub)`. */
  function Find(s: Str, sub: Str): Option<nat> {
    FindFrom(s, sub, 0)
  }

  /** `sub in s`. */
  predicate Contains(s: Str, sub: Str) {
    Find(s, sub).Some?
  }

  /** `s.split(sep)[0]`: the text before the first `sep`, or all of `s`. */
  function BeforeFirst(s: Str, sep: Str): (r: Str)
    ensures |r| <= |s| && r == s[..|r|]
  {
    match Find(s, sep)
    case None => s
    case Some(i) => s[..i]
  }

  /** The text after the first `sep`, or `[]` when there is none. */
  function AfterFirst(s: Str, sep: Str): (r: Str)
    ensures Contains(s, sep) ==> |r| <= |s| && r == s[|s| - |r|..]
  {
    match Find(s, sep)
    case None => []
    case Some(i) => s[i + |sep|..]
  }

  /** `s.split(sep)[1]` for a non-empty `sep` that occurs in `s`:
    * the text between the first and the second `sep`, or to the end. */
  function SecondPiece(s: Str, sep: Str): Str {
    BeforeFirst(AfterFirst(s, sep), sep)
  }

  // ---------------------------------------------------------------- slicing and trimming

  /** Python's `s[:k]`, where a negative `k` counts from the end. */
  function SliceTo<T>(s: seq<T>, k: int): (r: seq<T>)
    ensures |r| <= |s| && r == s[..|r|]
    ensures 0 <= k ==> |r| == if k < |s| then k else |s|
    ensures k < 0 ==> |r| == if |s| + k < 0 then 0 else |s| + k
  {
    if 0 <= k then (if k < |s| then s[..k] else s)
    else (if |s| + k < 0 then [] else s[..|s| + k])
  }

  /** The last index of `c` in `s`. */
  function LastIndexOf(s: Str, c: CodePoint): (r: Option<nat>)
    ensures r.Some? ==> r.value < |s| && s[r.value] == c
    ensures r.Some? ==> forall j :: r.value < j < |s| ==> s[j] != c
    ensures r.None? ==> forall j :: 0 <= j < |s| ==> s[j] != c
  {
    if s == [] then None
    else if s[|s| - 1] == c then Some(|s| - 1)
    else LastIndexOf(s[..|s| - 1], c)
  }

  /** `s.rsplit(' ', 1)[0]`: the text before the last space, or all of `s`. */
  function RSplitHead(s: Str): (r: Str)
    ensures |r| <= |s| && r == s[..|r|]
    ensures r == s <==> forall j :: 0 <= j < |s| ==> s[j] != SPACE
    ensures r != s ==> |r| < |s| && s[|r|] == SPACE && forall j :: |r| < j < |s| ==> s[j] != SPACE
  {
    match LastIndexOf(s, SPACE)
    case None => s
    case Some(j) => s[..j]
  }

  /** `s.rstrip(c)`: `s` without its trailing run of `c`. */
  function RStripChar(s: Str, c: CodePoint): (r: Str)
    ensures |r| <= |s| && r == s[..|r|]
    ensures r == [] || r[|r| - 1] != c
    ensures forall j :: |r| <= j < |s| ==> s[j] == c
  {
    if s != [] && s[|s| - 1] == c then RStripChar(s[..|s| - 1], c) else s
  }

  // ---------------------------------------------------------------- case

  /** `c.lower()` for ASCII letters; every other code point is left as it is. */
  function LowerChar(c: CodePoint): CodePoint {
    if 0x41 <= c <= 0x5A then c + 0x20 else c
  }

  /** `s.lower()` on ASCII letters. */
  function Lower(s: Str): (r: Str)
    ensures |r| == |s|
    ensures forall i :: 0 <= i < |s| ==> r[i] == LowerChar(s[i])
  {
    seq(|s|, i requires 0 <= i < |s| => LowerChar(s[i]))
  }
}
