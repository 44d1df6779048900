/**
 `retrieve_context`: choose the corpus documents that share a word with the
 question and join the first two with newlines. The corpus is the list of
 document texts in directory-listing order.
 */
module Retrieval {
  import opened Text

  /** At most this many matching documents make up the context. */
  const MaxContextDocs: nat := 2

  /** The separator between the selected documents. */
  const ContextSeparator: string := "\n"

  /** The match test of `retrieve_context`: some whitespace-separated word of
      the question, lower-cased, occurs in the lower-cased document. */
  predicate Matches(question: string, doc: string) {
    var words := Split(question);
    exists k | 0 <= k < |words| :: Contains(Lower(doc), Lower(words[k]))
  }

  /** The documents `retrieve_context` appends to `context`, in corpus order. */
  function Matching(corpus: seq<string>, question: string): (docs: seq<string>)
    ensures |docs| <= |corpus|
    ensures forall k :: 0 <= k < |docs| ==> Matches(question, docs[k])
    decreases |corpus|
  {
    if corpus == [] then []
    else
      var last := corpus[|corpus| - 1];
      var prev := Matching(corpus[..|corpus| - 1], question);
      if Matches(question, last) then prev + [last] else prev
  }

  /** Python's slice to the first `n` elements: the longest prefix of `xs`
      with at most `n` elements. */
  function Take<T>(xs: seq<T>, n: nat): (r: seq<T>)
    ensures |r| == if |xs| <= n then |xs| else n
    ensures r <= xs
  {
    if |xs| <= n then xs else xs[..n]
  }

  /** `context[:2]`: the documents the context is built from. */
  function Selected(corpus: seq<string>, question: string): (docs: seq<string>)
    ensures |docs| <= MaxContextDocs
    ensures forall k :: 0 <= k < |docs| ==> Matches(question, docs[k])
  {
    Take(Matching(corpus, question), MaxContextDocs)
  }

  /** `retrieve_context(question)` over `corpus`. */
  function RetrieveContext(corpus: seq<string>, question: string): string {
    Join(Selected(corpus, question), ContextSeparator)
  }

  /** The positions of the matching documents, in increasing order. */
  function MatchPositions(corpus: seq<string>, question: string): (pos: seq<nat>)
    ensures forall k :: 0 <= k < |pos| ==> pos[k] < |corpus|
    ensures forall k, l :: 0 <= k < l < |pos| ==> pos[k] < pos[l]
    decreases |corpus|
  {
    if corpus == [] then []
    else
      var n := |corpus| - 1;
      var prev := MatchPositions(corpus[..n], question);
      if Matches(question, corpus[n]) then prev + [n] else prev
  }

  /** `MatchPositions` lists exactly the positions whose document matches. */
  lemma {:induction false} MatchPositionsExact(corpus: seq<string>, question: string)
    ensures forall i :: 0 <= i < |corpus| ==>
              (i in MatchPositions(corpus, question) <==> Matches(question, corpus[i]))
    decreases |corpus|
  {
    if corpus != [] {
      var n := |corpus| - 1;
      MatchPositionsExact(corpus[..n], question);
      forall i | 0 <= i < n ensures corpus[..n][i] == corpus[i] {
      }
    }
  }

  /** The kept documents are exactly the matching ones, each once, in corpus
      order: the k-th kept document is the document at the k-th matching index. */
  lemma {:induction false} MatchingAtPositions(corpus: seq<string>, question: string)
    ensures |Matching(corpus, question)| == |MatchPositions(corpus, question)|
    ensures forall k :: 0 <= k < |Matching(corpus, question)| ==>
              Matching(corpus, question)[k] == corpus[MatchPositions(corpus, question)[k]]
    decreases |corpus|
  {
    if corpus != [] {
      var n := |corpus| - 1;
      var prefix := corpus[..n];
      MatchingAtPositions(prefix, question);
      var docs, pos := Matching(prefix, question), MatchPositions(prefix, question);
      var last := corpus[n];
      if Matches(question, last) {
        assert Matching(corpus, question) == docs + [last];
        assert MatchPositions(corpus, question) == pos + [n];
        forall k | 0 <= k < |docs| + 1 ensures (docs + [last])[k] == corpus[(pos + [n])[k]] {
          if k < |docs| {
            assert prefix[pos[k]] == corpus[pos[k]];
          }
        }
      } else {
        assert Matching(corpus, question) == docs;
        assert MatchPositions(corpus, question) == pos;
        forall k | 0 <= k < |docs| ensures docs[k] == corpus[pos[k]] {
          assert prefix[pos[k]] == corpus[pos[k]];
        }
      }
    }
  }

  /** The context is built from the first (up to) two matching documents, in
      corpus order, and from nothing else. */
  lemma SelectedFirstMatches(corpus: seq<string>, question: string)
    ensures |Selected(corpus, question)| ==
              (if |MatchPositions(corpus, question)| < MaxContextDocs
               then |MatchPositions(corpus, question)| else MaxContextDocs)
    ensures forall k :: 0 <= k < |Selected(corpus, question)| ==>
              Selected(corpus, question)[k] == corpus[MatchPositions(corpus, question)[k]]
  {
    MatchingAtPositions(corpus, question);
  }

  /** Documents appended to the end of the corpus come after the ones already
      kept, whether they match or not. */
  lemma {:induction false} MatchingAppend(corpus: seq<string>, more: seq<string>, question: string)
    ensures Matching(corpus + more, question) == Matching(corpus, question) + Matching(more, question)
    decreases |more|
  {
    if more == [] {
      assert corpus + more == corpus;
    } else {
      var m := |more| - 1;
      assert (corpus + more)[..|corpus + more| - 1] == corpus + more[..m];
      MatchingAppend(corpus, more[..m], question);
    }
  }

  /** Growing the corpus at its end only adds to the selection, and a
      selection that is already full does not change. */
  lemma AppendKeepsSelection(corpus: seq<string>, more: seq<string>, question: string)
    ensures Selected(corpus, question) <= Selected(corpus + more, question)
    ensures |Selected(corpus, question)| == MaxContextDocs ==>
              Selected(corpus + more, question) == Selected(corpus, question)
              && RetrieveContext(corpus + more, question) == RetrieveContext(corpus, question)
  {
    MatchingAppend(corpus, more, question);
    var a := Matching(corpus, question);
    var b := Matching(more, question);
    if |a| >= MaxContextDocs {
      assert (a + b)[..MaxContextDocs] == a[..MaxContextDocs];
    }
  }

  /** Only non-empty documents can match: every question word is non-empty. */
  lemma MatchedDocNonEmpty(question: string, doc: string)
    requires Matches(question, doc)
    ensures |doc| > 0
  {
    var words := Split(question);
    var k :| 0 <= k < |words| && Contains(Lower(doc), Lower(words[k]));
    ContainsLength(Lower(doc), Lower(words[k]));
  }

  /** The context is the empty string exactly when no document matches. */
  lemma RetrieveEmptyIff(corpus: seq<string>, question: string)
    ensures RetrieveContext(corpus, question) == [] <==>
              forall i :: 0 <= i < |corpus| ==> !Matches(question, corpus[i])
  {
    var docs := Selected(corpus, question);
    JoinEmptyIff(docs, ContextSeparator);
    MatchingAtPositions(corpus, question);
    MatchPositionsExact(corpus, question);
    var pos := MatchPositions(corpus, question);
    if docs != [] {
      MatchedDocNonEmpty(question, docs[0]);
    }
    if pos == [] {
      assert forall i :: 0 <= i < |corpus| ==> !Matches(question, corpus[i]);
    } else {
      assert Matches(question, corpus[pos[0]]);
    }
  }

  /** A question with no words (empty or whitespace only) matches nothing,
      so the context is empty for every corpus. */
  lemma BlankQuestionEmptyContext(corpus: seq<string>, question: string)
    requires AllSpace(question)
    ensures Selected(corpus, question) == []
    ensures RetrieveContext(corpus, question) == []
  {
    SplitEmptyIff(question);
    assert forall i :: 0 <= i < |corpus| ==> !Matches(question, corpus[i]);
    NoMatchNothingKept(corpus, question);
  }

  lemma {:induction false} NoMatchNothingKept(corpus: seq<string>, question: string)
    requires forall i :: 0 <= i < |corpus| ==> !Matches(question, corpus[i])
    ensures Matching(corpus, question) == []
    decreases |corpus|
  {
    if corpus != [] {
      var n := |corpus| - 1;
      assert forall i :: 0 <= i < n ==> corpus[..n][i] == corpus[i];
      NoMatchNothingKept(corpus[..n], question);
    }
  }

  /** Matching looks at the question and the document only through their
      lower-cased forms. */
  lemma MatchesIgnoresCase(q1: string, q2: string, d1: string, d2: string)
    requires Lower(q1) == Lower(q2) && Lower(d1) == Lower(d2)
    ensures Matches(q1, d1) <==> Matches(q2, d2)
  {
    SplitLower(q1);
    SplitLower(q2);
    var w1, w2 := Split(q1), Split(q2);
    assert |w1| == |LowerAll(w1)| == |LowerAll(w2)| == |w2|;
    forall k | 0 <= k < |w1| ensures Lower(w1[k]) == Lower(w2[k]) {
      assert LowerAll(w1)[k] == LowerAll(w2)[k];
    }
  }

  /** Changing the case of letters in the question does not change the context. */
  lemma {:induction false} QuestionCaseInsensitive(corpus: seq<string>, q1: string, q2: string)
    requires Lower(q1) == Lower(q2)
    ensures Matching(corpus, q1) == Matching(corpus, q2)
    ensures RetrieveContext(corpus, q1) == RetrieveContext(corpus, q2)
    decreases |corpus|
  {
    if corpus != [] {
      var n := |corpus| - 1;
      QuestionCaseInsensitive(corpus[..n], q1, q2);
      MatchesIgnoresCase(q1, q2, corpus[n], corpus[n]);
    }
  }

  /** Changing the case of letters in the documents does not change which
      documents are selected: the matching indices are the same. */
  lemma {:induction false} CorpusCaseInsensitive(c1: seq<string>, c2: seq<string>, question: string)
    requires |c1| == |c2|
    requires forall i :: 0 <= i < |c1| ==> Lower(c1[i]) == Lower(c2[i])
    ensures MatchPositions(c1, question) == MatchPositions(c2, question)
    decreases |c1|
  {
    if c1 != [] {
      var n := |c1| - 1;
      CorpusCaseInsensitive(c1[..n], c2[..n], question);
      MatchesIgnoresCase(question, question, c1[n], c2[n]);
    }
  }

  /** With three matching documents only the first two make up the context,
      in corpus order. */
  lemma ThreeMatchesKeepFirstTwo(a: string, b: string, c: string, question: string)
    requires Matches(question, a) && Matches(question, b) && Matches(question, c)
    ensures RetrieveContext([a, b, c], question) == a + "\n" + b
  {
    assert [a][..0] == [];
    assert Matching([a], question) == [a];
    assert [a, b][..1] == [a];
    assert Matching([a, b], question) == [a, b];
    assert [a, b, c][..2] == [a, b];
    assert Matching([a, b, c], question) == [a, b, c];
    assert Selected([a, b, c], question) == [a, b];
    assert [a, b][1..] == [b];
    assert Join([a, b], ContextSeparator) == a + ContextSeparator + Join([b], ContextSeparator);
  }

  /** A document matches when it holds, ignoring case, one question word
      that sits between whitespace-bounded parts of the question. */
  lemma MatchesByWord(qBefore: string, word: string, qAfter: string,
                      dBefore: string, dAfter: string)
    requires qBefore == [] || IsSpace(qBefore[|qBefore| - 1])
    requires qAfter == [] || IsSpace(qAfter[0])
    requires |word| > 0 && NoSpace(word)
    ensures Matches(qBefore + word + qAfter, dBefore + word + dAfter)
  {
    var question := qBefore + word + qAfter;
    SplitAppend(qBefore, word + qAfter);
    SplitAppend(word, qAfter);
    SplitWord(word);
    assert question == qBefore + (word + qAfter);
    var words := Split(question);
    assert words[|Split(qBefore)|] == word;
    LowerAppend(dBefore, word, dAfter);
    ContainsInfix(Lower(dBefore), Lower(word), Lower(dAfter));
  }

  lemma BlightDocumentMatches()
    ensures Matches("What causes blight in tomato plants?", "Tomato blight causes yellowing leaves.")
  {
    assert "What causes blight in tomato plants?" == "What causes " + "blight" + " in tomato plants?";
    assert "Tomato blight causes yellowing leaves." == "Tomato " + "blight" + " causes yellowing leaves.";
    MatchesByWord("What causes ", "blight", " in tomato plants?", "Tomato ", " causes yellowing leaves.");
  }

  /** A single document sharing the word `blight` with the question is
      returned whole. */
  lemma BlightExample()
    ensures RetrieveContext(["Tomato blight causes yellowing leaves."],
                            "What causes blight in tomato plants?")
            == "Tomato blight causes yellowing leaves."
  {
    BlightDocumentMatches();
    assert ["Tomato blight causes yellowing leaves."][..0] == [];
  }

  /** The loop of `retrieve_context`, written as the source writes it: scan
      the corpus, test each document against every word, append the matches,
      then keep the first two and join them. */
  method RetrieveContextLoop(corpus: seq<string>, question: string) returns (context: string)
    ensures context == RetrieveContext(corpus, question)
  {
    var words := Split(question);
    var kept: seq<string> := [];
    var i := 0;
    while i < |corpus|
      invariant 0 <= i <= |corpus|
      invariant kept == Matching(corpus[..i], question)
    {
      var text := corpus[i];
      var lowered := Lower(text);
      var found := false;
      var k := 0;
      while k < |words| && !found
        invariant 0 <= k <= |words|
        invariant found <==> exists j | 0 <= j < k :: Contains(lowered, Lower(words[j]))
      {
        found := Contains(lowered, Lower(words[k]));
        k := k + 1;
      }
      if found {
        kept := kept + [text];
      }
      assert corpus[..i + 1][..i] == corpus[..i];
      i := i + 1;
    }
    assert corpus[..|corpus|] == corpus;
    context := Join(Take(kept, MaxContextDocs), ContextSeparator);
  }
}
