/** `extract_compliance_metadata`: lines grouped into numbered sections such as `3.2 Scope`. */
module Metadata {
  import opened Text

  // ---------------------------------------------------------------------------------------
  // Header lines
  // ---------------------------------------------------------------------------------------

  /** End of the run of ASCII digits in `s` that starts at `from`. */
  function DigitRunEnd(s: string, from: nat): (e: nat)
    requires from <= |s|
    ensures from <= e <= |s|
    ensures forall j :: from <= j < e ==> IsDigit(s[j])
    ensures e < |s| ==> !IsDigit(s[e])
    decreases |s| - from
  {
    if from < |s| && IsDigit(s[from]) then DigitRunEnd(s, from + 1) else from
  }

  /** `re.match(r'^\d+\.\d+\s+', line)` succeeds: one or more digits, a dot, one or more
      digits, then a whitespace character (what follows it does not matter). */
  predicate IsHeader(line: string)
    ensures IsHeader(line) ==> |line| >= 4 && IsDigit(line[0])
  {
    var i := DigitRunEnd(line, 0);
    0 < i < |line| && line[i] == '.' &&
    var j := DigitRunEnd(line, i + 1);
    i + 1 < j < |line| && IsSpace(line[j])
  }

  /** The pattern matched with the dot at `i` and the first whitespace after the digits at `j`. */
  predicate HeaderAt(line: string, i: nat, j: nat) {
    && 0 < i && i + 1 < j < |line|
    && (forall m :: 0 <= m < i ==> IsDigit(line[m]))
    && line[i] == '.'
    && (forall m :: i < m < j ==> IsDigit(line[m]))
    && IsSpace(line[j])
  }

  lemma {:induction false} DigitRunEndAt(s: string, from: nat, e: nat)
    requires from <= e < |s|
    requires forall m :: from <= m < e ==> IsDigit(s[m])
    requires !IsDigit(s[e])
    ensures DigitRunEnd(s, from) == e
    decreases e - from
  {
    if from < e {
      DigitRunEndAt(s, from + 1, e);
    }
  }

  /** `IsHeader` is exactly the regular expression: some split of the line's start into
      digits, a dot, digits and a whitespace character. */
  lemma HeaderIffPattern(line: string)
    ensures IsHeader(line) <==> exists i: nat, j: nat :: HeaderAt(line, i, j)
  {
    if IsHeader(line) {
      var i := DigitRunEnd(line, 0);
      var j := DigitRunEnd(line, i + 1);
      assert HeaderAt(line, i, j);
    }
    if exists i: nat, j: nat :: HeaderAt(line, i, j) {
      var i: nat, j: nat :| HeaderAt(line, i, j);
      DigitRunEndAt(line, 0, i);
      DigitRunEndAt(line, i + 1, j);
    }
  }

  // ---------------------------------------------------------------------------------------
  // Specification
  // ---------------------------------------------------------------------------------------

  /** Index of the last header line, or -1 when there is none. */
  function LastHeader(lines: seq<string>): (h: int)
    ensures -1 <= h < |lines|
    ensures h >= 0 ==> IsHeader(lines[h])
    ensures forall j :: h < j < |lines| ==> !IsHeader(lines[j])
  {
    if |lines| == 0 then -1
    else if IsHeader(lines[|lines| - 1]) then |lines| - 1
    else LastHeader(lines[..|lines| - 1])
  }

  /** Index of the first header line, or `|lines|` when there is none. */
  function FirstHeader(lines: seq<string>): (f: nat)
    ensures f <= |lines|
    ensures f < |lines| ==> IsHeader(lines[f])
    ensures forall j :: 0 <= j < f ==> !IsHeader(lines[j])
  {
    if |lines| == 0 || IsHeader(lines[0]) then 0 else 1 + FirstHeader(lines[1..])
  }

  /** Number of header lines. */
  function HeaderCount(lines: seq<string>): nat {
    if |lines| == 0 then 0
    else HeaderCount(lines[..|lines| - 1]) + (if IsHeader(lines[|lines| - 1]) then 1 else 0)
  }

  /** The sections of `lines`: the last one runs from the last header line to the end, joined
      with "\n"; the ones before it are the sections of the lines above that header. Lines
      above the first header belong to no section. */
  function Sections(lines: seq<string>): seq<string>
    decreases |lines|
  {
    var h := LastHeader(lines);
    if h < 0 then [] else Sections(lines[..h]) + [Join("\n", lines[h..])]
  }

  // ---------------------------------------------------------------------------------------
  // The loop
  // ---------------------------------------------------------------------------------------

  /** One more line moves the last header to it exactly when it is a header. */
  lemma LastHeaderSnoc(lines: seq<string>, i: nat)
    requires i < |lines|
    ensures LastHeader(lines[..i + 1]) == if IsHeader(lines[i]) then i else LastHeader(lines[..i])
  {
    assert lines[..i + 1][..i] == lines[..i];
  }

  /** The sections of a prefix that ends after a header: the sections above that header,
      then the lines from it on. */
  lemma SectionsOfPrefix(lines: seq<string>, i: nat)
    requires i <= |lines| && LastHeader(lines[..i]) >= 0
    ensures var h := LastHeader(lines[..i]);
            Sections(lines[..i]) == Sections(lines[..h]) + [Join("\n", lines[h..i])]
  {
    var h := LastHeader(lines[..i]);
    assert lines[..i][..h] == lines[..h];
    assert lines[..i][h..] == lines[h..i];
  }

  /** The lines from a header on, joined, are never empty. */
  lemma CurrentNonEmpty(lines: seq<string>, h: nat, i: nat)
    requires h < i <= |lines| && IsHeader(lines[h])
    ensures Join("\n", lines[h..i]) != ""
  {
    JoinStartsWithFirst("\n", lines[h..i]);
  }

  /** The loop's state after `i` lines: before the first header nothing is collected; after
      it, `current` holds the lines from the last header on and `sections` the sections above
      that header. */
  ghost predicate Scanned(lines: seq<string>, i: nat, sections: seq<string>, current: string)
    requires i <= |lines|
  {
    var h := LastHeader(lines[..i]);
    && (h < 0 ==> current == "" && sections == [])
    && (h >= 0 ==> current == Join("\n", lines[h..i]) && current != "" && sections == Sections(lines[..h]))
  }

  /** One pass of the loop body keeps `Scanned`: a header line closes the current section
      (if any) and opens a new one; any other line extends an open section and is dropped
      before the first header. */
  lemma ScanStep(lines: seq<string>, i: nat, sections: seq<string>, current: string)
    requires i < |lines| && Scanned(lines, i, sections, current)
    ensures IsHeader(lines[i]) ==>
              Scanned(lines, i + 1, if current != "" then sections + [current] else sections, lines[i])
    ensures !IsHeader(lines[i]) && current != "" ==>
              Scanned(lines, i + 1, sections, current + "\n" + lines[i])
    ensures !IsHeader(lines[i]) && current == "" ==> Scanned(lines, i + 1, sections, current)
  {
    if IsHeader(lines[i]) {
      ScanHeader(lines, i, sections, current);
    } else if current != "" {
      ScanContinue(lines, i, sections, current);
    } else {
      LastHeaderSnoc(lines, i);
    }
  }

  lemma ScanHeader(lines: seq<string>, i: nat, sections: seq<string>, current: string)
    requires i < |lines| && Scanned(lines, i, sections, current) && IsHeader(lines[i])
    ensures Scanned(lines, i + 1, if current != "" then sections + [current] else sections, lines[i])
  {
    LastHeaderSnoc(lines, i);
    if LastHeader(lines[..i]) >= 0 {
      SectionsOfPrefix(lines, i);
    }
    assert lines[i..i + 1] == [lines[i]];
    assert lines[..i + 1][..i] == lines[..i];
  }

  lemma ScanContinue(lines: seq<string>, i: nat, sections: seq<string>, current: string)
    requires i < |lines| && Scanned(lines, i, sections, current)
    requires !IsHeader(lines[i]) && current != ""
    ensures Scanned(lines, i + 1, sections, current + "\n" + lines[i])
  {
    LastHeaderSnoc(lines, i);
    var h := LastHeader(lines[..i]);
    assert h >= 0 && LastHeader(lines[..i + 1]) == h;
    assert current == Join("\n", lines[h..i]) && sections == Sections(lines[..h]);
    JoinSnoc("\n", lines[h..i], lines[i]);
    SliceSnoc(lines, h, i);
    CurrentNonEmpty(lines, h, i + 1);
  }

  /** After the last line, `sections` and a non-empty `current` make up all the sections. */
  lemma ScanDone(lines: seq<string>, sections: seq<string>, current: string)
    requires Scanned(lines, |lines|, sections, current)
    ensures (if current != "" then sections + [current] else sections) == Sections(lines)
  {
    assert lines[..|lines|] == lines;
  }

  method ExtractComplianceMetadata(text: string) returns (sections: seq<string>)
    ensures sections == Sections(Lines(text))
  {
    var lines := Lines(text);
    sections := [];
    var current := "";
    for i := 0 to |lines|
      invariant Scanned(lines, i, sections, current)
    {
      var line := lines[i];
      ScanStep(lines, i, sections, current);
      if IsHeader(line) {
        if current != "" {
          sections := sections + [current];
        }
        current := line;
      } else if current != "" {
        current := current + "\n" + line;
      }
    }
    ScanDone(lines, sections, current);
    if current != "" {
      sections := sections + [current];
    }
  }

  // ---------------------------------------------------------------------------------------
  // Properties
  // ---------------------------------------------------------------------------------------

  /** Lines after the last header do not change the header count. */
  lemma {:induction false} HeaderCountUpTo(lines: seq<string>, h: nat)
    requires h < |lines|
    requires forall j :: h < j < |lines| ==> !IsHeader(lines[j])
    ensures HeaderCount(lines) == HeaderCount(lines[..h + 1])
    decreases |lines| - h
  {
    if h + 1 < |lines| {
      var prefix := lines[..|lines| - 1];
      HeaderCountUpTo(prefix, h);
      assert prefix[..h + 1] == lines[..h + 1];
    } else {
      assert lines[..h + 1] == lines;
    }
  }

  /** There is one section per header line. */
  lemma {:induction false} SectionCount(lines: seq<string>)
    ensures |Sections(lines)| == HeaderCount(lines)
    decreases |lines|
  {
    var h := LastHeader(lines);
    if h < 0 {
      NoHeadersCountZero(lines);
    } else {
      SectionCount(lines[..h]);
      HeaderCountUpTo(lines, h);
      assert lines[..h + 1][..h] == lines[..h];
    }
  }

  lemma {:induction false} NoHeadersCountZero(lines: seq<string>)
    requires forall j :: 0 <= j < |lines| ==> !IsHeader(lines[j])
    ensures HeaderCount(lines) == 0
    decreases |lines|
  {
    if |lines| > 0 {
      NoHeadersCountZero(lines[..|lines| - 1]);
    }
  }

  /** Text without a header line has no sections, and text with one has some. */
  lemma NoHeaderNoSections(lines: seq<string>)
    ensures Sections(lines) == [] <==> forall j :: 0 <= j < |lines| ==> !IsHeader(lines[j])
  {
  }

  /** Each section, split back into lines, starts with a header line and has no other. */
  lemma {:induction false} SectionShape(lines: seq<string>, k: nat)
    requires forall j :: 0 <= j < |lines| ==> '\n' !in lines[j]
    requires k < |Sections(lines)|
    ensures var ls := Lines(Sections(lines)[k]);
            IsHeader(ls[0]) && forall j :: 0 < j < |ls| ==> !IsHeader(ls[j])
    decreases |lines|
  {
    var h := LastHeader(lines);
    var prior := Sections(lines[..h]);
    if k < |prior| {
      SectionShape(lines[..h], k);
      assert Sections(lines)[k] == prior[k];
    } else {
      var run := lines[h..];
      SplitJoin(run, '\n');
      assert Sections(lines)[k] == Join("\n", run);
      assert forall j :: 0 < j < |run| ==> run[j] == lines[h + j];
    }
  }

  /** A header with no header before it is the first header. */
  lemma {:induction false} FirstHeaderAt(lines: seq<string>, f: nat)
    requires f < |lines| && IsHeader(lines[f])
    requires forall j :: 0 <= j < f ==> !IsHeader(lines[j])
    ensures FirstHeader(lines) == f
    decreases f
  {
    if f > 0 {
      FirstHeaderAt(lines[1..], f - 1);
    }
  }

  /** First header of a prefix that already holds a header. */
  lemma FirstHeaderOfPrefix(lines: seq<string>, h: nat)
    requires h <= |lines| && FirstHeader(lines[..h]) < h
    ensures FirstHeader(lines[..h]) == FirstHeader(lines)
  {
    var f := FirstHeader(lines[..h]);
    assert lines[..h][f] == lines[f];
    assert forall j :: 0 <= j < f ==> lines[..h][j] == lines[j];
    FirstHeaderAt(lines, f);
  }

  /** Regrouping loses nothing: the sections joined with "\n" are the lines from the first
      header on, joined with "\n"; lines are neither lost, repeated nor reordered. */
  lemma {:induction false} SectionsLossless(lines: seq<string>)
    ensures Join("\n", Sections(lines)) == Join("\n", lines[FirstHeader(lines)..])
    decreases |lines|
  {
    var h := LastHeader(lines);
    if h < 0 {
      assert FirstHeader(lines) == |lines|;
    } else {
      var prior := Sections(lines[..h]);
      var last := Join("\n", lines[h..]);
      if prior == [] {
        NoHeaderNoSections(lines[..h]);
        assert forall j :: 0 <= j < h ==> lines[..h][j] == lines[j];
        assert FirstHeader(lines) == h;
        assert Sections(lines) == [last];
      } else {
        SectionsLossless(lines[..h]);
        NoHeaderNoSections(lines[..h]);
        var f := FirstHeader(lines[..h]);
        FirstHeaderOfPrefix(lines, h);
        assert lines[..h][f..] == lines[f..h];
        JoinRegroup(prior, lines, f, h);
      }
    }
  }

  /** Adding the run of lines from `h` on as one more group keeps the joined text equal to
      the joined lines from `f` on. */
  lemma JoinRegroup(prior: seq<string>, lines: seq<string>, f: nat, h: nat)
    requires f < h < |lines|
    requires |prior| >= 1 && Join("\n", prior) == Join("\n", lines[f..h])
    ensures Join("\n", prior + [Join("\n", lines[h..])]) == Join("\n", lines[f..])
  {
    JoinSnoc("\n", prior, Join("\n", lines[h..]));
    JoinAppend("\n", lines[f..h], lines[h..]);
    SliceConcat(lines, f, h);
  }

  /** The lines from `f` on, joined, end the joined lines. */
  lemma JoinSuffix(lines: seq<string>, f: nat)
    requires f <= |lines|
    ensures var all, tail := Join("\n", lines), Join("\n", lines[f..]);
            |tail| <= |all| && all[|all| - |tail|..] == tail
  {
    var all, tail := Join("\n", lines), Join("\n", lines[f..]);
    if f == |lines| {
      assert tail == "";
    } else if f == 0 {
      assert lines[0..] == lines;
    } else {
      var head := Join("\n", lines[..f]);
      JoinAppend("\n", lines[..f], lines[f..]);
      SliceConcat(lines, 0, f);
      assert all == head + "\n" + tail;
      assert all[|head| + 1..] == tail;
    }
  }

  /** The sections, joined with "\n", are a suffix of the lines joined with "\n". */
  lemma SectionsSuffix(lines: seq<string>)
    ensures var all, joined := Join("\n", lines), Join("\n", Sections(lines));
            |joined| <= |all| && all[|all| - |joined|..] == joined
  {
    var joined := Join("\n", Sections(lines));
    SectionsLossless(lines);
    assert joined == Join("\n", lines[FirstHeader(lines)..]);
    JoinSuffix(lines, FirstHeader(lines));
  }

  /** The sections, joined with "\n", are a suffix of the text. */
  lemma SectionsSuffixOfText(text: string)
    ensures var joined := Join("\n", Sections(Lines(text)));
            |joined| <= |text| && text[|text| - |joined|..] == joined
  {
    JoinSplit(text, '\n');
    SectionsSuffix(Lines(text));
  }
}
