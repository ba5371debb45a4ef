/** The greedy sentence packer `create_chunks` of translate.py: sentences are
    taken in order, and a sentence joins the chunk being built while the summed
    lengths of that chunk's sentences (join spaces not counted) stay within
    `maxLength`; otherwise the chunk built so far is emitted, joined by single
    spaces, and a new chunk starts with the sentence. */
module Chunking {
  import opened PyStr

  /** The sentences of all groups, in order. */
  function Flatten(gs: seq<seq<string>>): seq<string>
  {
    if gs == [] then [] else Flatten(gs[..|gs| - 1]) + gs[|gs| - 1]
  }

  /** The loop state `(chunks, current_chunk)` after the loop has consumed
      `s`, with each emitted chunk kept as its list of sentences. */
  function Pack(s: seq<string>, maxLength: int): (seq<seq<string>>, seq<string>)
  {
    if s == [] then ([], [])
    else
      var (done, current) := Pack(s[..|s| - 1], maxLength);
      var sentence := s[|s| - 1];
      if SumLen(current) + |sentence| <= maxLength then (done, current + [sentence])
      else (done + [current], [sentence])
  }

  /** The sentence groups `create_chunks` returns, before joining: the
      emitted groups plus the last one when it is non-empty. */
  function Groups(s: seq<string>, maxLength: int): seq<seq<string>>
  {
    var (done, current) := Pack(s, maxLength);
    if current != [] then done + [current] else done
  }

  /** Every chunk string is the space-join of its sentence group. */
  function JoinGroups(gs: seq<seq<string>>): (r: seq<string>)
    ensures |r| == |gs|
    ensures forall k :: 0 <= k < |gs| ==> r[k] == Join(gs[k], " ")
  {
    if gs == [] then [] else JoinGroups(gs[..|gs| - 1]) + [Join(gs[|gs| - 1], " ")]
  }

  /** `create_chunks(sentences, max_length)`: the imperative accumulator loop,
      proved to return the space-joined groups of `Groups`. */
  method CreateChunks(sentences: seq<string>, maxLength: int) returns (chunks: seq<string>)
    ensures chunks == JoinGroups(Groups(sentences, maxLength))
  {
    chunks := [];
    var currentChunk: seq<string> := [];
    var currentLength := 0;
    ghost var done: seq<seq<string>> := [];
    for i := 0 to |sentences|
      invariant (done, currentChunk) == Pack(sentences[..i], maxLength)
      invariant currentLength == SumLen(currentChunk)
      invariant chunks == JoinGroups(done)
    {
      assert sentences[..i + 1][..i] == sentences[..i];
      var sentence := sentences[i];
      var sentenceLength := |sentence|;
      if currentLength + sentenceLength <= maxLength {
        assert (currentChunk + [sentence])[..|currentChunk|] == currentChunk;
        currentChunk := currentChunk + [sentence];
        currentLength := currentLength + sentenceLength;
      } else {
        chunks := chunks + [Join(currentChunk, " ")];
        done := done + [currentChunk];
        assert [sentence][..0] == [];
        currentChunk := [sentence];
        currentLength := sentenceLength;
      }
    }
    assert sentences[..|sentences|] == sentences;
    if currentChunk != [] {
      chunks := chunks + [Join(currentChunk, " ")];
      done := done + [currentChunk];
    }
  }

  // Properties of the loop state, each by induction over the consumed prefix.

  /** The emitted groups followed by the current one are the consumed
      sentences, and the current group is non-empty once anything was consumed. */
  lemma {:induction false} PackCovers(s: seq<string>, maxLength: int)
    ensures Flatten(Pack(s, maxLength).0) + Pack(s, maxLength).1 == s
    ensures s != [] ==> Pack(s, maxLength).1 != []
  {
    if s != [] {
      var prefix := s[..|s| - 1];
      PackCovers(prefix, maxLength);
      var (done, current) := Pack(prefix, maxLength);
      var sentence := s[|s| - 1];
      assert prefix + [sentence] == s;
      if SumLen(current) + |sentence| <= maxLength {
        assert Flatten(done) + (current + [sentence]) == (Flatten(done) + current) + [sentence];
      } else {
        assert (done + [current])[..|done|] == done;
        assert Flatten(done + [current]) == Flatten(done) + current;
      }
    }
  }

  /** A group of two or more sentences never exceeds the bound. */
  lemma {:induction false} PackBounded(s: seq<string>, maxLength: int)
    ensures var (done, current) := Pack(s, maxLength);
      (forall k :: 0 <= k < |done| && |done[k]| >= 2 ==> SumLen(done[k]) <= maxLength) &&
      (|current| >= 2 ==> SumLen(current) <= maxLength)
  {
    if s != [] {
      var prefix := s[..|s| - 1];
      PackBounded(prefix, maxLength);
      var (done, current) := Pack(prefix, maxLength);
      var sentence := s[|s| - 1];
      assert (current + [sentence])[..|current|] == current;
    }
  }

  /** Only the first emitted group can be empty, and it is exactly when the
      first sentence alone exceeds the bound. */
  lemma {:induction false} PackEmptyGroup(s: seq<string>, maxLength: int)
    ensures var done := Pack(s, maxLength).0;
      (forall k :: 0 < k < |done| ==> done[k] != []) &&
      (s != [] ==> (|done| > 0 && done[0] == [] <==> |s[0]| > maxLength))
  {
    if s != [] {
      var prefix := s[..|s| - 1];
      PackEmptyGroup(prefix, maxLength);
      PackCovers(prefix, maxLength);
      if prefix != [] {
        assert prefix[0] == s[0];
      }
    }
  }

  /** Greediness of a loop state: an emitted group could not have taken the
      first sentence of the group that follows it. */
  ghost predicate Greedy(done: seq<seq<string>>, current: seq<string>, maxLength: int)
  {
    (forall j :: 0 < j < |done| && done[j] != [] ==> SumLen(done[j - 1]) + |done[j][0]| > maxLength) &&
    (|done| > 0 && current != [] ==> SumLen(done[|done| - 1]) + |current[0]| > maxLength)
  }

  /** Every loop state the packer reaches is greedy. */
  lemma {:induction false} PackGreedy(s: seq<string>, maxLength: int)
    ensures Greedy(Pack(s, maxLength).0, Pack(s, maxLength).1, maxLength)
  {
    if s != [] {
      var prefix := s[..|s| - 1];
      PackCovers(prefix, maxLength);
      PackGreedy(prefix, maxLength);
      var (done, current) := Pack(prefix, maxLength);
      var sentence := s[|s| - 1];
      if SumLen(current) + |sentence| <= maxLength {
        assert prefix == [] ==> done == [];
        assert current != [] ==> (current + [sentence])[0] == current[0];
      } else {
        var done' := done + [current];
        forall j | 0 < j < |done'| && done'[j] != []
          ensures SumLen(done'[j - 1]) + |done'[j][0]| > maxLength
        {
          if j < |done| {
            assert done'[j - 1] == done[j - 1] && done'[j] == done[j];
          }
        }
      }
    }
  }

  // What the returned chunk list satisfies.

  /** Concatenating the sentences of all chunks, in order, gives back the
      input; no input gives no chunks, and any input gives at least one. */
  lemma GroupsPreserveOrder(s: seq<string>, maxLength: int)
    ensures Flatten(Groups(s, maxLength)) == s
    ensures Groups(s, maxLength) == [] <==> s == []
  {
    PackCovers(s, maxLength);
    var (done, current) := Pack(s, maxLength);
    assert (done + [current])[..|done|] == done;
  }

  /** Only a chunk made of a single sentence may exceed `maxLength`. */
  lemma GroupsBounded(s: seq<string>, maxLength: int)
    ensures forall g :: g in Groups(s, maxLength) && |g| >= 2 ==> SumLen(g) <= maxLength
  {
    PackBounded(s, maxLength);
  }

  /** An empty chunk appears only first, and exactly when the first sentence
      is longer than `maxLength`. */
  lemma GroupsEmptyChunk(s: seq<string>, maxLength: int)
    ensures forall k :: 0 < k < |Groups(s, maxLength)| ==> Groups(s, maxLength)[k] != []
    ensures s != [] ==>
      (Groups(s, maxLength)[0] == [] <==> |s[0]| > maxLength)
  {
    PackCovers(s, maxLength);
    PackEmptyGroup(s, maxLength);
  }

  /** Each chunk but the last is maximal: adding the first sentence of the
      chunk after it would push its summed length past `maxLength`. */
  lemma GroupsGreedy(s: seq<string>, maxLength: int)
    ensures var gs := Groups(s, maxLength);
      forall j :: 0 < j < |gs| ==> gs[j] != [] && SumLen(gs[j - 1]) + |gs[j][0]| > maxLength
  {
    if s != [] {
      PackCovers(s, maxLength);
      PackEmptyGroup(s, maxLength);
      PackGreedy(s, maxLength);
      var (done, current) := Pack(s, maxLength);
      var gs := Groups(s, maxLength);
      assert gs == done + [current];
      forall j | 0 < j < |gs|
        ensures gs[j] != [] && SumLen(gs[j - 1]) + |gs[j][0]| > maxLength
      {
        assert gs[j - 1] == done[j - 1];
        if j < |done| {
          assert gs[j] == done[j];
        }
      }
    }
  }

  /** Every sentence of a group is among the flattened sentences. */
  lemma {:induction false} FlattenMember(gs: seq<seq<string>>, k: nat, x: string)
    requires k < |gs| && x in gs[k]
    ensures x in Flatten(gs)
  {
    var last := |gs| - 1;
    if k < last {
      FlattenMember(gs[..last], k, x);
    }
  }

  /** The chunk strings themselves, for sentences that are all non-empty:
      a chunk is the empty string only when it is the first and the first
      sentence alone is longer than `maxLength`. */
  lemma ChunksEmpty(s: seq<string>, maxLength: int)
    requires forall i :: 0 <= i < |s| ==> s[i] != ""
    ensures var chunks := JoinGroups(Groups(s, maxLength));
      forall k :: 0 <= k < |chunks| ==> (chunks[k] == "" <==> k == 0 && |s[0]| > maxLength)
  {
    var gs := Groups(s, maxLength);
    GroupsPreserveOrder(s, maxLength);
    GroupsEmptyChunk(s, maxLength);
    forall k | 0 <= k < |gs| && gs[k] != []
      ensures Join(gs[k], " ") != ""
    {
      FlattenMember(gs, k, gs[k][0]);
    }
  }

  /** With empty sentences allowed, a later chunk can be the empty string
      too: `create_chunks(["aa", ""], 1)` gives `["", "aa", ""]`. So the
      statement of `GroupsEmptyChunk` is about sentence groups, and on chunk
      strings it needs the non-empty sentences `ChunksEmpty` assumes. */
  lemma EmptySentenceMakesLateEmptyChunk()
    ensures JoinGroups(Groups(["aa", ""], 1)) == ["", "aa", ""]
  {
    var s := ["aa", ""];
    var first := s[..1];
    var none: seq<seq<string>> := [];
    assert first == ["aa"] && first[..0] == [] && |first[0]| == 2;
    assert Pack(first[..0], 1) == ([], []) && SumLen([]) == 0;
    assert first[|first| - 1] == "aa" && first[..|first| - 1] == [];
    assert Pack(first, 1) == (none + [[]], ["aa"]);
    assert none + [[]] == [[]];
    assert ["aa"][..0] == [];
    assert SumLen(["aa"]) == 2;
    assert s[..|s| - 1] == first;
    assert Pack(s, 1) == (none + [[]] + [["aa"]], [""]);
    assert none + [[]] + [["aa"]] == [[], ["aa"]];
    assert Groups(s, 1) == [[], ["aa"], [""]];
  }
}
