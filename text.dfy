/** The Python string and list built-ins the chunkers rely on, over `string` (a `seq<char>`). */
module Text {

  /** The characters Python's `str.isspace()` accepts: what the argument-less `str.split()`
      splits on and what the regular-expression class `\s` matches in a `str` pattern. */
  predicate IsSpace(c: char)
    ensures c in " \t\n\r\U{B}\U{C}" ==> IsSpace(c)
    ensures IsSpace(c) ==> !IsDigit(c) && c != '.'
  {
    || ('\t' <= c <= '\r')
    || ('\U{1C}' <= c <= '\U{1F}')
    || c == ' ' || c == '\U{85}' || c == '\U{A0}' || c == '\U{1680}'
    || ('\U{2000}' <= c <= '\U{200A}')
    || c == '\U{2028}' || c == '\U{2029}' || c == '\U{202F}' || c == '\U{205F}' || c == '\U{3000}'
  }

  /** An ASCII decimal digit (the model's reading of the regular-expression class `\d`). */
  predicate IsDigit(c: char) {
    '0' <= c <= '9'
  }

  function Min(a: int, b: int): int {
    if a <= b then a else b
  }

  // ---------------------------------------------------------------------------------------
  // str.split(sep) and sep.join(parts)
  // ---------------------------------------------------------------------------------------

  /** Index of the first `sep` in `s`, or `|s|` when `s` has none. */
  function IndexOf(s: string, sep: char): (i: nat)
    ensures i <= |s|
    ensures i < |s| ==> s[i] == sep
    ensures forall j :: 0 <= j < i ==> s[j] != sep
  {
    if |s| == 0 || s[0] == sep then 0 else 1 + IndexOf(s[1..], sep)
  }

  /** Python's `s.split(sep)` for a one-character separator: the pieces between separators,
      empty pieces included, and always at least one piece. */
  function Split(s: string, sep: char): (parts: seq<string>)
    ensures |parts| >= 1
    ensures forall k :: 0 <= k < |parts| ==> sep !in parts[k]
    decreases |s|
  {
    var i := IndexOf(s, sep);
    if i == |s| then [s] else [s[..i]] + Split(s[i + 1..], sep)
  }

  /** Python's `text.split("\n")`. */
  function Lines(text: string): (lines: seq<string>)
    ensures |lines| >= 1
    ensures forall k :: 0 <= k < |lines| ==> '\n' !in lines[k]
  {
    Split(text, '\n')
  }

  /** Python's `sep.join(parts)`. */
  function Join(sep: string, parts: seq<string>): (r: string)
    ensures |parts| == 0 ==> r == ""
  {
    if |parts| == 0 then ""
    else if |parts| == 1 then parts[0]
    else parts[0] + sep + Join(sep, parts[1..])
  }

  /** Joining the pieces of a split with the separator gives back the text. */
  lemma {:induction false} JoinSplit(s: string, sep: char)
    ensures Join([sep], Split(s, sep)) == s
    decreases |s|
  {
    var i := IndexOf(s, sep);
    if i < |s| {
      var rest := s[i + 1..];
      JoinSplit(rest, sep);
      var parts := Split(rest, sep);
      assert Split(s, sep) == [s[..i]] + parts;
      JoinAppend([sep], [s[..i]], parts);
      SliceAround(s, i);
    }
  }

  /** The first separator of `a + t` is where `t` starts, when `a` has none. */
  lemma {:induction false} IndexOfAfter(a: string, t: string, sep: char)
    requires sep !in a
    requires |t| == 0 || t[0] == sep
    ensures IndexOf(a + t, sep) == |a|
    decreases |a|
  {
    if |a| > 0 {
      assert (a + t)[1..] == a[1..] + t;
      IndexOfAfter(a[1..], t, sep);
    } else {
      assert a + t == t;
    }
  }

  /** Splitting a join gives back the pieces, when no piece holds the separator. */
  lemma {:induction false} SplitJoin(parts: seq<string>, sep: char)
    requires |parts| >= 1
    requires forall k :: 0 <= k < |parts| ==> sep !in parts[k]
    ensures Split(Join([sep], parts), sep) == parts
    decreases |parts|
  {
    var s := Join([sep], parts);
    if |parts| == 1 {
      IndexOfAfter(parts[0], [], sep);
      assert parts[0] + [] == parts[0];
    } else {
      var rest := Join([sep], parts[1..]);
      var t := [sep] + rest;
      assert s == parts[0] + t;
      IndexOfAfter(parts[0], t, sep);
      var n := |parts[0]|;
      assert s[..n] == parts[0];
      assert s[n + 1..] == rest;
      assert Split(s, sep) == [parts[0]] + Split(rest, sep);
      SplitJoin(parts[1..], sep);
      assert parts == [parts[0]] + parts[1..];
    }
  }

  /** Appending one piece to a non-empty join adds the separator and that piece. */
  lemma {:induction false} JoinSnoc(sep: string, parts: seq<string>, x: string)
    requires |parts| >= 1
    ensures Join(sep, parts + [x]) == Join(sep, parts) + sep + x
    decreases |parts|
  {
    if |parts| > 1 {
      JoinSnoc(sep, parts[1..], x);
      assert (parts + [x])[1..] == parts[1..] + [x];
    }
  }

  /** A join of two non-empty lists is the two joins with the separator between them. */
  lemma {:induction false} JoinAppend(sep: string, a: seq<string>, b: seq<string>)
    requires |a| >= 1 && |b| >= 1
    ensures Join(sep, a + b) == Join(sep, a) + sep + Join(sep, b)
    decreases |a|
  {
    if |a| == 1 {
      assert a + b == [a[0]] + b;
      assert (a + b)[1..] == b;
    } else {
      JoinAppend(sep, a[1..], b);
      assert (a + b)[1..] == a[1..] + b;
    }
  }

  /** A join of a non-empty list starts with its first piece. */
  lemma {:induction false} JoinStartsWithFirst(sep: string, parts: seq<string>)
    requires |parts| >= 1
    ensures parts[0] <= Join(sep, parts)
  {
  }

  // ---------------------------------------------------------------------------------------
  // str.split() without arguments
  // ---------------------------------------------------------------------------------------

  /** A word: a non-empty run of non-whitespace characters. */
  predicate IsWord(w: string) {
    |w| > 0 && forall j :: 0 <= j < |w| ==> !IsSpace(w[j])
  }

  /** Length of the run of non-whitespace characters that starts `s`. */
  function WordLen(s: string): (n: nat)
    ensures n <= |s|
    ensures forall j :: 0 <= j < n ==> !IsSpace(s[j])
    ensures n < |s| ==> IsSpace(s[n])
  {
    if |s| == 0 || IsSpace(s[0]) then 0 else 1 + WordLen(s[1..])
  }

  /** Python's `s.split()`: the maximal runs of non-whitespace characters, in order;
      leading, trailing and repeated whitespace produce no empty pieces. */
  function Words(s: string): (ws: seq<string>)
    ensures forall k :: 0 <= k < |ws| ==> IsWord(ws[k])
    decreases |s|
  {
    if |s| == 0 then []
    else if IsSpace(s[0]) then Words(s[1..])
    else
      var n := WordLen(s);
      [s[..n]] + Words(s[n..])
  }

  /** A text has no words exactly when it is empty or whitespace only. */
  lemma {:induction false} NoWordsIffBlank(s: string)
    ensures Words(s) == [] <==> forall j :: 0 <= j < |s| ==> IsSpace(s[j])
    decreases |s|
  {
    if |s| > 0 && IsSpace(s[0]) {
      NoWordsIffBlank(s[1..]);
      assert forall j :: 1 <= j < |s| ==> s[j] == s[1..][j - 1];
    }
  }

  /** Words separated by single spaces split back into exactly those words. */
  lemma {:induction false} WordsOfJoin(ws: seq<string>)
    requires forall k :: 0 <= k < |ws| ==> IsWord(ws[k])
    ensures Words(Join(" ", ws)) == ws
    decreases |ws|
  {
    if |ws| == 0 {
    } else {
      var w := ws[0];
      var s := Join(" ", ws);
      if |ws| == 1 {
        assert s == w;
        assert WordLen(s) == |w|;
        assert s[..|w|] == w && s[|w|..] == [];
      } else {
        var rest := Join(" ", ws[1..]);
        assert s == w + " " + rest;
        assert s[|w|] == ' ';
        assert forall j :: 0 <= j < |w| ==> s[j] == w[j];
        assert WordLen(s) == |w|;
        assert s[..|w|] == w;
        assert s[|w|..] == " " + rest;
        assert (" " + rest)[1..] == rest;
        WordsOfJoin(ws[1..]);
        assert ws == [w] + ws[1..];
      }
    }
  }

  /** A word on its own splits into just that word. */
  lemma WordsOfWord(w: string)
    requires IsWord(w)
    ensures Words(w) == [w]
  {
    assert WordLen(w) == |w|;
    assert w[..|w|] == w && w[|w|..] == [];
  }

  /** The first word of `a + t` is the first word of `a`, when that word ends inside `a` or
      `t` starts with whitespace. */
  lemma {:induction false} WordLenPrefix(a: string, t: string)
    requires WordLen(a) < |a| || (|t| > 0 && IsSpace(t[0]))
    ensures WordLen(a + t) == WordLen(a)
    decreases |a|
  {
    if |a| == 0 {
      assert a + t == t;
    } else if !IsSpace(a[0]) {
      assert (a + t)[1..] == a[1..] + t;
      WordLenPrefix(a[1..], t);
    }
  }

  /** Words do not run across a whitespace character: when `t` starts with whitespace, the
      words of `a + t` are the words of `a` followed by the words of `t`. */
  lemma {:induction false} WordsAppendAtSpace(a: string, t: string)
    requires |t| > 0 && IsSpace(t[0])
    ensures Words(a + t) == Words(a) + Words(t)
    decreases |a|
  {
    if |a| == 0 {
      assert a + t == t;
    } else if IsSpace(a[0]) {
      assert (a + t)[1..] == a[1..] + t;
      WordsAppendAtSpace(a[1..], t);
    } else {
      var n := WordLen(a);
      WordLenPrefix(a, t);
      assert (a + t)[..n] == a[..n];
      assert (a + t)[n..] == a[n..] + t;
      WordsAppendAtSpace(a[n..], t);
    }
  }

  /** A whitespace character separates words: the words of `a + [c] + b` are the words of `a`
      followed by the words of `b`. With `NoWordsIffBlank` and `WordsOfWord` this determines
      `Words` on every text: the maximal non-whitespace runs, in order. */
  lemma WordsSplitAtSpace(a: string, c: char, b: string)
    requires IsSpace(c)
    ensures Words(a + [c] + b) == Words(a) + Words(b)
  {
    var t := [c] + b;
    assert a + [c] + b == a + t;
    WordsAppendAtSpace(a, t);
    assert t[1..] == b;
  }

  /** A sequence is its prefix before `i`, its element at `i` and the rest. */
  lemma SliceAround<T>(s: seq<T>, i: nat)
    requires i < |s|
    ensures s == s[..i] + [s[i]] + s[i + 1..]
  {
    assert s[..i + 1] == s[..i] + [s[i]];
  }

  /** A slice grown by one element. */
  lemma SliceSnoc<T>(s: seq<T>, lo: nat, hi: nat)
    requires lo <= hi < |s|
    ensures s[lo..hi] + [s[hi]] == s[lo..hi + 1]
  {
  }

  /** Two adjacent slices make up the longer one. */
  lemma SliceConcat<T>(s: seq<T>, lo: nat, mid: nat)
    requires lo <= mid <= |s|
    ensures s[lo..mid] + s[mid..] == s[lo..]
    ensures s[..mid] + s[mid..] == s
  {
  }

  // ---------------------------------------------------------------------------------------
  // Python slices
  // ---------------------------------------------------------------------------------------

  /** One bound of a Python slice over a list of length `n`: a negative bound counts from the
      end, and the result is clamped to `0..n`. */
  function SliceBound(b: int, n: nat): (r: nat)
    ensures r <= n
    ensures 0 <= b <= n ==> r == b
    ensures b > n ==> r == n
  {
    if b < 0 then (if b + n < 0 then 0 else b + n)
    else if b > n then n
    else b
  }

  /** Python's `s[lo:hi]`. */
  function PySlice<T>(s: seq<T>, lo: int, hi: int): (r: seq<T>)
    ensures 0 <= lo <= hi <= |s| ==> r == s[lo..hi]
    ensures 0 <= lo <= |s| <= hi ==> r == s[lo..]
    ensures |r| <= |s|
  {
    var l := SliceBound(lo, |s|);
    var h := SliceBound(hi, |s|);
    if l < h then s[l..h] else []
  }
}
