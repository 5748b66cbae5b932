/** `compliance_chunker`: the text is cut into numbered sections as `extract_compliance_metadata`
    does; a section of at most 1500 characters becomes one chunk, and a longer one is split into
    sentences that are packed into chunks of about 1000 characters.

    The sentence splitter (a spaCy pipeline) is a parameter: `segment(section)` is the list
    of sentence texts it yields for that section. */
module Compliance {
  import opened Text
  import opened Metadata
  import opened Packing

  /** Sections longer than this many characters are split into sentences. */
  const MaxSection: nat := 1500

  // ---------------------------------------------------------------------------------------
  // Specification
  // ---------------------------------------------------------------------------------------

  /** The chunks one section contributes. */
  function SectionChunks(section: string, segment: string -> seq<string>): seq<string> {
    if |section| <= MaxSection then [section] else Pack(segment(section))
  }

  /** `SectionChunks` with the sentence splitter fixed. */
  function ChunksOf(segment: string -> seq<string>): string -> seq<string> {
    section => SectionChunks(section, segment)
  }

  /** The chunks of a list of sections, in section order, given the chunks of each section. */
  function Chunked(sections: seq<string>, chunksOf: string -> seq<string>): seq<string> {
    if sections == [] then []
    else Chunked(sections[..|sections| - 1], chunksOf) + chunksOf(sections[|sections| - 1])
  }

  /** What `compliance_chunker(text)` returns. */
  function ComplianceChunks(text: string, segment: string -> seq<string>): seq<string> {
    Chunked(Sections(Lines(text)), ChunksOf(segment))
  }

  // ---------------------------------------------------------------------------------------
  // The loops
  // ---------------------------------------------------------------------------------------

  lemma ChunkedSnoc(sections: seq<string>, i: nat, chunksOf: string -> seq<string>)
    requires i < |sections|
    ensures Chunked(sections[..i + 1], chunksOf) == Chunked(sections[..i], chunksOf) + chunksOf(sections[i])
  {
    assert sections[..i + 1][..i] == sections[..i];
  }

  /** The chunks of `text`: the sections, then each one kept or packed. */
  method ComplianceChunker(text: string, segment: string -> seq<string>) returns (finalChunks: seq<string>)
    ensures finalChunks == ComplianceChunks(text, segment)
  {
    var sections := SplitSections(text);
    finalChunks := ChunkSections(sections, segment);
  }

  /** The first half of `compliance_chunker`: the loop of `extract_compliance_metadata` written
      out again, with the header branch's two arms (close the open section or not) kept apart.
      It yields the same sections. */
  method SplitSections(text: string) returns (sections: seq<string>)
    ensures sections == Sections(Lines(text))
  {
    var lines := Lines(text);
    sections := [];
    var current := "";
    for i := 0 to |lines|
      invariant Scanned(lines, i, sections, current)
    {
      var line := lines[i];
      if IsHeader(line) {
        ScanHeader(lines, i, sections, current);
        if current != "" {
          sections := sections + [current];
          current := line;
        } else {
          current := line;
        }
      } else if current != "" {
        ScanContinue(lines, i, sections, current);
        current := current + "\n" + line;
      } else {
        LastHeaderSnoc(lines, i);
      }
    }
    ScanDone(lines, sections, current);
    if current != "" {
      sections := sections + [current];
    }
  }

  /** The second half of `compliance_chunker`: each section in turn is kept whole or packed
      from its sentences, and the chunks are appended in order. */
  method ChunkSections(sections: seq<string>, segment: string -> seq<string>) returns (finalChunks: seq<string>)
    ensures finalChunks == Chunked(sections, ChunksOf(segment))
  {
    finalChunks := [];
    for i := 0 to |sections|
      invariant finalChunks == Chunked(sections[..i], ChunksOf(segment))
    {
      var section := sections[i];
      ChunkedSnoc(sections, i, ChunksOf(segment));
      if |section| <= MaxSection {
        finalChunks := finalChunks + [section];
      } else {
        var packed := PackSentences(segment(section));
        finalChunks := finalChunks + packed;
      }
    }
    assert sections[..|sections|] == sections;
  }

  // ---------------------------------------------------------------------------------------
  // Properties
  // ---------------------------------------------------------------------------------------

  /** Chunking a list of sections is chunking its two halves and concatenating the results:
      each section is chunked on its own. */
  lemma {:induction false} ChunkedAppend(a: seq<string>, b: seq<string>, chunksOf: string -> seq<string>)
    ensures Chunked(a + b, chunksOf) == Chunked(a, chunksOf) + Chunked(b, chunksOf)
    decreases |b|
  {
    if b == [] {
      assert a + b == a;
    } else {
      var n := |b| - 1;
      ChunkedAppend(a, b[..n], chunksOf);
      var ab := a + b;
      assert ab[..|ab| - 1] == a + b[..n];
      assert ab[|ab| - 1] == b[n];
      calc {
        Chunked(ab, chunksOf);
        Chunked(a + b[..n], chunksOf) + chunksOf(b[n]);
        Chunked(a, chunksOf) + Chunked(b[..n], chunksOf) + chunksOf(b[n]);
        Chunked(a, chunksOf) + Chunked(b, chunksOf);
      }
    }
  }

  /** When no section exceeds `MaxSection` characters, the chunks are the sections themselves,
      and the sentence splitter is never consulted. */
  lemma {:induction false} ShortSectionsUnchanged(sections: seq<string>, segment: string -> seq<string>)
    requires forall k :: 0 <= k < |sections| ==> |sections[k]| <= MaxSection
    ensures Chunked(sections, ChunksOf(segment)) == sections
    decreases |sections|
  {
    if sections != [] {
      var n := |sections| - 1;
      ShortSectionsUnchanged(sections[..n], segment);
      assert sections[..n] + [sections[n]] == sections;
    }
  }

  /** Section `i` contributes its chunks right after those of the sections before it. */
  lemma ChunksOfSection(sections: seq<string>, i: nat, chunksOf: string -> seq<string>)
    requires i < |sections|
    ensures var before, own := Chunked(sections[..i], chunksOf), chunksOf(sections[i]);
            |before| + |own| <= |Chunked(sections, chunksOf)| &&
            Chunked(sections, chunksOf)[|before|..|before| + |own|] == own
  {
    ChunkedAppend(sections[..i + 1], sections[i + 1..], chunksOf);
    ChunkedSnoc(sections, i, chunksOf);
    assert sections[..i + 1] + sections[i + 1..] == sections;
  }

  /** A section of at most `MaxSection` characters appears verbatim, right after the chunks
      of the sections before it. */
  lemma ShortSectionVerbatim(sections: seq<string>, i: nat, segment: string -> seq<string>)
    requires i < |sections| && |sections[i]| <= MaxSection
    ensures var p := |Chunked(sections[..i], ChunksOf(segment))|;
            p < |Chunked(sections, ChunksOf(segment))| && Chunked(sections, ChunksOf(segment))[p] == sections[i]
  {
    var f := ChunksOf(segment);
    ChunksOfSection(sections, i, f);
    var p := |Chunked(sections[..i], f)|;
    var whole := Chunked(sections, f);
    assert f(sections[i]) == [sections[i]];
    assert whole[p..p + 1] == [sections[i]];
    assert whole[p] == whole[p..p + 1][0];
  }

  /** Short sections keep their order: a short section's chunk comes before every chunk of
      the sections after it. */
  lemma ShortSectionsInOrder(sections: seq<string>, i: nat, j: nat, segment: string -> seq<string>)
    requires i < j <= |sections| && |sections[i]| <= MaxSection
    ensures |Chunked(sections[..i], ChunksOf(segment))| < |Chunked(sections[..j], ChunksOf(segment))|
  {
    var f := ChunksOf(segment);
    var upto := sections[..j];
    ChunkedAppend(upto[..i + 1], upto[i + 1..], f);
    SliceConcat(upto, 0, i + 1);
    ChunkedSnoc(upto, i, f);
    assert upto[..i] == sections[..i];
  }

  /** Every chunk comes from one section. */
  lemma {:induction false} ChunkOrigin(sections: seq<string>, chunksOf: string -> seq<string>, c: string)
    requires c in Chunked(sections, chunksOf)
    ensures exists k :: 0 <= k < |sections| && c in chunksOf(sections[k])
    decreases |sections|
  {
    var n := |sections| - 1;
    if c !in chunksOf(sections[n]) {
      ChunkOrigin(sections[..n], chunksOf, c);
      var k :| 0 <= k < n && c in chunksOf(sections[..n][k]);
      assert sections[..n][k] == sections[k];
    }
  }

  /** A chunk is at most `MaxSection` characters long unless it is a single sentence of some
      section, emitted on its own because it did not fit with its neighbours. */
  lemma ChunkLength(sections: seq<string>, segment: string -> seq<string>, c: string)
    requires c in Chunked(sections, ChunksOf(segment))
    ensures |c| <= MaxSection || exists k :: 0 <= k < |sections| && c in segment(sections[k])
  {
    ChunkOrigin(sections, ChunksOf(segment), c);
    var k :| 0 <= k < |sections| && c in ChunksOf(segment)(sections[k]);
    if |sections[k]| > MaxSection && |c| > MaxSection {
      assert c in Pack(segment(sections[k]));
      LongChunkIsSentence(segment(sections[k]), c);
    }
  }

  /** A long section whose sentences are non-empty is packed without loss: its chunks are the
      texts of the sentence groups, one chunk per group, and the groups hold its sentences in
      order. */
  lemma LongSectionKeepsSentences(section: string, segment: string -> seq<string>)
    requires |section| > MaxSection
    requires |segment(section)| >= 1
    requires forall k :: 0 <= k < |segment(section)| ==> segment(section)[k] != ""
    ensures var gs := PackGroups(segment(section));
            var own := SectionChunks(section, segment);
            && |own| == |gs|
            && Flatten(gs) == segment(section)
            && forall i :: 0 <= i < |own| ==> own[i] == Render(gs, i)
  {
    EverySentenceInOneChunk(segment(section));
  }

  /** A document whose sections are all short is chunked into exactly its sections, the same
      list `extract_compliance_metadata` returns. */
  lemma ShortDocument(text: string, segment: string -> seq<string>)
    requires forall k :: 0 <= k < |Sections(Lines(text))| ==> |Sections(Lines(text))[k]| <= MaxSection
    ensures ComplianceChunks(text, segment) == Sections(Lines(text))
  {
    ShortSectionsUnchanged(Sections(Lines(text)), segment);
  }
}
