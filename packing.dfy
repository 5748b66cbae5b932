/** The sentence-packing loop of `compliance_chunker`, run on each section longer than 1500
    characters: a sentence is appended to the chunk, after a space, when the chunk's length
    plus the sentence's length is at most 1000; otherwise the chunk is closed and a new one
    starts with that sentence. The joining space is not counted, so a chunk of several
    sentences reaches at most 1001 characters. */
module Packing {
  import opened Text

  /** The character budget of the packing test `len(chunk) + len(sent.text) > 1000`. */
  const MaxChunk: nat := 1000

  // ---------------------------------------------------------------------------------------
  // Specification: which sentences go together
  // ---------------------------------------------------------------------------------------

  /** Each sentence preceded by one space: the text `chunk += ' ' + sent` builds from "". */
  function SpaceEach(g: seq<string>): string {
    if g == [] then "" else SpaceEach(g[..|g| - 1]) + " " + g[|g| - 1]
  }

  /** The text of group `i`: the first group grows from the initial empty chunk, so each of
      its sentences carries a leading space; every later group starts as its first sentence
      and the rest follow, space-separated. */
  function Render(gs: seq<seq<string>>, i: nat): string
    requires i < |gs|
  {
    if i == 0 then SpaceEach(gs[0]) else Join(" ", gs[i])
  }

  /** One sentence more: it starts a new group when adding it to the text of the last group
      would exceed `MaxChunk`, and otherwise joins the last group. */
  function PackStep(gs: seq<seq<string>>, s: string): (r: seq<seq<string>>)
    requires |gs| >= 1
  {
    var k := |gs| - 1;
    if |Render(gs, k)| + |s| > MaxChunk then gs + [[s]] else gs[..k] + [gs[k] + [s]]
  }

  /** The groups, in order, after packing all of `sents`; the last one is still open. */
  function PackGroups(sents: seq<string>): (gs: seq<seq<string>>)
    ensures |gs| >= 1
    ensures forall j :: 0 < j < |gs| ==> gs[j] != []
  {
    if sents == [] then [[]]
    else PackStep(PackGroups(sents[..|sents| - 1]), sents[|sents| - 1])
  }

  /** The texts of the first `n` groups, in order. */
  function Texts(gs: seq<seq<string>>, n: nat): (r: seq<string>)
    requires n <= |gs|
    ensures |r| == n
    ensures forall i :: 0 <= i < n ==> r[i] == Render(gs, i)
  {
    if n == 0 then [] else Texts(gs, n - 1) + [Render(gs, n - 1)]
  }

  /** The chunks emitted for groups `gs`: every closed group's text, then the open group's
      text unless it is empty. */
  function Emit(gs: seq<seq<string>>): (out: seq<string>)
    requires |gs| >= 1
    ensures |out| == if Render(gs, |gs| - 1) == "" then |gs| - 1 else |gs|
    ensures forall i :: 0 <= i < |out| ==> out[i] == Render(gs, i)
  {
    var last := |gs| - 1;
    if Render(gs, last) == "" then Texts(gs, last) else Texts(gs, |gs|)
  }

  /** The chunks the packing loop emits for `sents`. */
  function Pack(sents: seq<string>): seq<string> {
    Emit(PackGroups(sents))
  }

  /** The sentences of the groups, in order. */
  function Flatten(gs: seq<seq<string>>): seq<string> {
    if gs == [] then [] else Flatten(gs[..|gs| - 1]) + gs[|gs| - 1]
  }

  // ---------------------------------------------------------------------------------------
  // The loop
  // ---------------------------------------------------------------------------------------

  lemma PackGroupsSnoc(sents: seq<string>, i: nat)
    requires i < |sents|
    ensures PackGroups(sents[..i + 1]) == PackStep(PackGroups(sents[..i]), sents[i])
  {
    assert sents[..i + 1][..i] == sents[..i];
  }

  /** How one step changes the texts: a new group renders as its sentence, and the last group
      grows by a space and the sentence; the groups before are unchanged. */
  lemma RenderStep(gs: seq<seq<string>>, s: string)
    requires |gs| >= 1 && forall j :: 0 < j < |gs| ==> gs[j] != []
    ensures var k, r := |gs| - 1, PackStep(gs, s);
            && (forall j :: 0 <= j < k ==> Render(r, j) == Render(gs, j))
            && (|Render(gs, k)| + |s| > MaxChunk ==>
                  |r| == k + 2 && Render(r, k) == Render(gs, k) && Render(r, k + 1) == s)
            && (|Render(gs, k)| + |s| <= MaxChunk ==>
                  |r| == k + 1 && Render(r, k) == Render(gs, k) + " " + s)
  {
    var k, r := |gs| - 1, PackStep(gs, s);
    if |Render(gs, k)| + |s| <= MaxChunk {
      var g := gs[k];
      assert r[k] == g + [s];
      if k == 0 {
        assert (g + [s])[..|g|] == g;
      } else {
        JoinSnoc(" ", g, s);
      }
    }
  }

  /** The loop's state for groups `gs`: the chunks closed so far are the texts of the closed
      groups, and `chunk` is the text of the open group. */
  ghost predicate Packed(gs: seq<seq<string>>, chunks: seq<string>, chunk: string)
    requires |gs| >= 1
  {
    chunks == Texts(gs, |gs| - 1) && chunk == Render(gs, |gs| - 1)
  }

  /** A sentence that does not fit closes the open chunk and starts a new one. */
  lemma PackedClose(gs: seq<seq<string>>, chunks: seq<string>, chunk: string, s: string)
    requires |gs| >= 1 && Packed(gs, chunks, chunk) && |chunk| + |s| > MaxChunk
    ensures Packed(PackStep(gs, s), chunks + [chunk], s)
  {
    var r, k := PackStep(gs, s), |gs| - 1;
    assert r == gs + [[s]];
    assert Texts(r, k) == Texts(gs, k);
  }

  /** A sentence that fits is appended to the open chunk after a space. */
  lemma PackedExtend(gs: seq<seq<string>>, chunks: seq<string>, chunk: string, s: string)
    requires |gs| >= 1 && forall j :: 0 < j < |gs| ==> gs[j] != []
    requires Packed(gs, chunks, chunk) && |chunk| + |s| <= MaxChunk
    ensures Packed(PackStep(gs, s), chunks, chunk + " " + s)
  {
    RenderStep(gs, s);
    var r, k := PackStep(gs, s), |gs| - 1;
    assert Texts(r, k) == Texts(gs, k);
  }

  method PackSentences(sents: seq<string>) returns (chunks: seq<string>)
    ensures chunks == Pack(sents)
  {
    chunks := [];
    var chunk := "";
    for i := 0 to |sents|
      invariant Packed(PackGroups(sents[..i]), chunks, chunk)
    {
      var sent := sents[i];
      PackGroupsSnoc(sents, i);
      if |chunk| + |sent| > MaxChunk {
        PackedClose(PackGroups(sents[..i]), chunks, chunk, sent);
        chunks := chunks + [chunk];
        chunk := sent;
      } else {
        PackedExtend(PackGroups(sents[..i]), chunks, chunk, sent);
        chunk := chunk + " " + sent;
      }
    }
    assert sents[..|sents|] == sents;
    ghost var gs := PackGroups(sents);
    assert Texts(gs, |gs|) == Texts(gs, |gs| - 1) + [Render(gs, |gs| - 1)];
    if chunk != "" {
      chunks := chunks + [chunk];
    }
  }

  // ---------------------------------------------------------------------------------------
  // Properties
  // ---------------------------------------------------------------------------------------

  /** Packing keeps every sentence, in order, in exactly one group. */
  lemma {:induction false} FlattenPackGroups(sents: seq<string>)
    ensures Flatten(PackGroups(sents)) == sents
    decreases |sents|
  {
    if sents != [] {
      var prefix, s := sents[..|sents| - 1], sents[|sents| - 1];
      assert prefix + [s] == sents;
      var gs := PackGroups(prefix);
      FlattenPackGroups(prefix);
      var k := |gs| - 1;
      if |Render(gs, k)| + |s| > MaxChunk {
        assert (gs + [[s]])[..|gs|] == gs;
      } else {
        var r := gs[..k] + [gs[k] + [s]];
        assert r[..k] == gs[..k];
        assert Flatten(gs) == Flatten(gs[..k]) + gs[k];
      }
    }
  }

  /** Group `j` renders within `MaxChunk + 1` characters unless it is a later group holding
      a single sentence. */
  predicate WithinBudget(gs: seq<seq<string>>, j: nat)
    requires j < |gs|
  {
    (j == 0 || |gs[j]| >= 2) ==> |Render(gs, j)| <= MaxChunk + 1
  }

  /** A group of two or more sentences, and the first group, never renders past
      `MaxChunk + 1` characters: each sentence is added only when it fits. */
  lemma {:induction false} GroupLengthBound(sents: seq<string>)
    ensures var gs := PackGroups(sents);
            forall j :: 0 <= j < |gs| ==> WithinBudget(gs, j)
    decreases |sents|
  {
    if sents != [] {
      var prefix, s := sents[..|sents| - 1], sents[|sents| - 1];
      var gs := PackGroups(prefix);
      GroupLengthBound(prefix);
      assert WithinBudget(PackGroups(prefix), 0);
      RenderStep(gs, s);
      var r := PackStep(gs, s);
      var k := |gs| - 1;
      forall j | 0 <= j < |r|
        ensures WithinBudget(r, j)
      {
        if j < k || (j == k && |Render(gs, k)| + |s| > MaxChunk) {
          assert r[j] == gs[j];
          assert WithinBudget(gs, j);
        } else if j == k {
          assert |Render(r, j)| == |Render(gs, k)| + 1 + |s|;
        } else {
          assert |r| == k + 2 && r[j] == [s];
        }
      }
    }
  }

  /** A chunk longer than `MaxChunk + 1` characters is one sentence on its own. */
  lemma LongChunkIsOneSentence(sents: seq<string>, i: nat)
    requires i < |Pack(sents)| && |Pack(sents)[i]| > MaxChunk + 1
    ensures i > 0 && PackGroups(sents)[i] == [Pack(sents)[i]]
  {
    GroupLengthBound(sents);
    assert WithinBudget(PackGroups(sents), i);
    var gs := PackGroups(sents);
    assert Pack(sents) == Emit(gs);
    assert i < |gs| && Pack(sents)[i] == Render(gs, i);
    assert |gs[i]| == 1;
    assert gs[i] == [gs[i][0]];
  }

  /** A chunk longer than `MaxChunk + 1` characters is one of the sentences. */
  lemma LongChunkIsSentence(sents: seq<string>, c: string)
    requires c in Pack(sents) && |c| > MaxChunk + 1
    ensures c in sents
  {
    var i :| 0 <= i < |Pack(sents)| && Pack(sents)[i] == c;
    LongChunkIsOneSentence(sents, i);
    FlattenPackGroups(sents);
    FlattenMember(PackGroups(sents), i, 0);
  }

  /** A step never removes a group; it changes the first group only while that is the only
      one, and then only by adding the sentence to it. */
  lemma StepKeepsHead(gs: seq<seq<string>>, s: string)
    requires |gs| >= 1
    ensures var r := PackStep(gs, s);
            && |r| >= |gs|
            && (|gs| >= 2 ==> r[0] == gs[0])
            && (r[0] == gs[0] || r[0] == gs[0] + [s])
  {
  }

  /** The first group is empty exactly when the first sentence alone exceeds `MaxChunk`;
      otherwise it starts with that sentence. */
  lemma {:induction false} FirstGroup(sents: seq<string>)
    requires sents != []
    ensures var gs := PackGroups(sents);
            && (|sents[0]| > MaxChunk ==> |gs| >= 2 && gs[0] == [])
            && (|sents[0]| <= MaxChunk ==> gs[0] != [] && gs[0][0] == sents[0])
    decreases |sents|
  {
    var prefix, s := sents[..|sents| - 1], sents[|sents| - 1];
    var gs := PackGroups(prefix);
    assert PackGroups(sents) == PackStep(gs, s);
    if prefix == [] {
      assert gs == [[]];
      assert Render(gs, 0) == "";
      assert s == sents[0];
    } else {
      FirstGroup(prefix);
      assert prefix[0] == sents[0];
      StepKeepsHead(gs, s);
    }
  }

  /** The text of the first group is its sentences joined with single spaces, after one
      leading space. */
  lemma {:induction false} SpaceEachIsJoin(g: seq<string>)
    requires g != []
    ensures SpaceEach(g) == " " + Join(" ", g)
    decreases |g|
  {
    var n := |g| - 1;
    if n == 0 {
      assert SpaceEach(g[..0]) == "";
    } else {
      SpaceEachIsJoin(g[..n]);
      JoinSnoc(" ", g[..n], g[n]);
      assert g[..n] + [g[n]] == g;
    }
  }

  /** When the first sentence fits, the first chunk is the first group's sentences joined with
      single spaces, after one leading space (the initial chunk is "", and the first
      sentence is appended after a space). */
  lemma FirstChunkLeadingSpace(sents: seq<string>)
    requires |sents| >= 1 && |sents[0]| <= MaxChunk
    ensures |Pack(sents)| >= 1 && Pack(sents)[0] == " " + Join(" ", PackGroups(sents)[0])
  {
    var gs := PackGroups(sents);
    FirstGroup(sents);
    SpaceEachIsJoin(gs[0]);
    assert Pack(sents) == Emit(gs);
    assert Render(gs, 0) != "";
  }

  /** When the first sentence alone exceeds `MaxChunk`, the first chunk emitted is "": the
      flush before a new chunk does not test the old chunk for emptiness. */
  lemma FirstSentenceTooLong(sents: seq<string>)
    requires |sents| >= 1 && |sents[0]| > MaxChunk
    ensures |Pack(sents)| >= 1 && Pack(sents)[0] == ""
  {
    FirstGroup(sents);
  }

  /** A group whose sentences are non-empty renders as a non-empty text. */
  lemma RenderNonEmpty(gs: seq<seq<string>>, i: nat)
    requires i < |gs| && gs[i] != [] && gs[i][0] != ""
    ensures Render(gs, i) != ""
  {
    if i == 0 {
      assert |SpaceEach(gs[0])| > 0;
    } else {
      JoinStartsWithFirst(" ", gs[i]);
    }
  }

  /** With non-empty sentences, every non-empty group renders as a non-empty text. */
  lemma GroupsRenderNonEmpty(sents: seq<string>)
    requires forall k :: 0 <= k < |sents| ==> sents[k] != ""
    ensures var gs := PackGroups(sents);
            forall i :: 0 <= i < |gs| && gs[i] != [] ==> Render(gs, i) != ""
  {
    var gs := PackGroups(sents);
    FlattenPackGroups(sents);
    forall i | 0 <= i < |gs| && gs[i] != []
      ensures Render(gs, i) != ""
    {
      FlattenMember(gs, i, 0);
      RenderNonEmpty(gs, i);
    }
  }

  /** With non-empty sentences, an empty chunk appears exactly when the first sentence alone
      exceeds `MaxChunk`, and then only as the first chunk. */
  lemma EmptyChunkIff(sents: seq<string>)
    requires forall k :: 0 <= k < |sents| ==> sents[k] != ""
    ensures "" in Pack(sents) <==> |sents| >= 1 && |sents[0]| > MaxChunk
    ensures forall i :: 0 < i < |Pack(sents)| ==> Pack(sents)[i] != ""
  {
    var gs, out := PackGroups(sents), Pack(sents);
    GroupsRenderNonEmpty(sents);
    if |sents| >= 1 {
      FirstGroup(sents);
      if |sents[0]| > MaxChunk {
        assert out[0] == "";
      }
    }
  }

  /** Every sentence of group `i` is a sentence of the flattened list. */
  lemma {:induction false} FlattenMember(gs: seq<seq<string>>, i: nat, m: nat)
    requires i < |gs| && m < |gs[i]|
    ensures gs[i][m] in Flatten(gs)
    decreases |gs|
  {
    var last := |gs| - 1;
    if i < last {
      FlattenMember(gs[..last], i, m);
    } else {
      assert Flatten(gs) == Flatten(gs[..last]) + gs[last];
    }
  }

  /** With non-empty sentences nothing is dropped: one chunk per group, and the sentences of
      the groups, in order, are exactly the input. */
  lemma EverySentenceInOneChunk(sents: seq<string>)
    requires |sents| >= 1
    requires forall k :: 0 <= k < |sents| ==> sents[k] != ""
    ensures var gs, out := PackGroups(sents), Pack(sents);
            && |out| == |gs|
            && Flatten(gs) == sents
            && forall i :: 0 <= i < |out| ==> out[i] == Render(gs, i)
  {
    var gs := PackGroups(sents);
    assert Pack(sents) == Emit(gs);
    FlattenPackGroups(sents);
    var last := |gs| - 1;
    if last > 0 {
      assert gs[last] != [];
      FlattenMember(gs, last, 0);
      RenderNonEmpty(gs, last);
    } else {
      FirstGroup(sents);
      RenderNonEmpty(gs, 0);
    }
  }
}
